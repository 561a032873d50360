/** Model of KItemListHeader, the column header of Dolphin's item views
    (src/kitemviews/kitemlistheader.cpp): which column lies under the pointer,
    whether the pointer is over a resize grip, how hover and press change the
    header's state, and where paint places each section. Painting itself is
    delegated to the platform style and is not modelled. */
module KItemViews {

  /** A role names one column of the header ("name", "size", "date", ...). */
  type Role = string

  /** Identity of the item model the header is attached to. */
  type ModelId = nat

  datatype Option<T> = None | Some(value: T)

  /** The kinds of position QStyleOptionHeader distinguishes for a section. */
  datatype SectionPosition = OnlyOneSection | Beginning | Middle | End

  /** One section as paint hands it to the style: its order index, its role,
      its horizontal extent and how it is drawn. */
  datatype Section = Section(
    orderIndex: int,
    role: Role,
    left: real,
    width: real,
    position: SectionPosition,
    mouseOver: bool,
    sunken: bool)

  /** What paint draws: the sections from left to right, then the empty
      area that fills the rest of the header. The empty area is an integer
      rectangle, so its left edge and width are whole pixels. */
  datatype Layout = Layout(sections: seq<Section>, emptyLeft: int, emptyWidth: int)

  /** The conversion of a qreal to int that C++ performs when a qreal is
      passed where an int is expected: truncation toward zero. */
  function TruncToInt(r: real): (i: int)
    ensures r >= 0.0 ==> 0 <= i && i as real <= r < i as real + 1.0
    ensures r < 0.0 ==> i <= 0 && i as real - 1.0 < r <= i as real
  {
    if r >= 0.0 then r.Floor else -((-r).Floor)
  }

  /** The width of a role; a role missing from the width map counts as 0,
      as QHash::value returns a default-constructed qreal. */
  function RoleWidth(widths: map<Role, real>, role: Role): (w: real)
    ensures role in widths ==> w == widths[role]
    ensures role !in widths ==> w == 0.0
  {
    if role in widths then widths[role] else 0.0
  }

  /** The summed width of the first n roles, i.e. the left edge of section n. */
  function PrefixWidth(roles: seq<Role>, widths: map<Role, real>, n: nat): (p: real)
    requires n <= |roles|
  {
    if n == 0 then 0.0 else PrefixWidth(roles, widths, n - 1) + RoleWidth(widths, roles[n - 1])
  }

  /** The right edge of column i: the summed width of roles 0..i. */
  function RightEdge(roles: seq<Role>, widths: map<Role, real>, i: nat): (e: real)
    requires i < |roles|
  {
    PrefixWidth(roles, widths, i + 1)
  }

  predicate NonNegativeWidths(widths: map<Role, real>)
  {
    forall role :: role in widths ==> widths[role] >= 0.0
  }

  /** r is the column under horizontal position x: -1 when there are no
      roles; otherwise the first column whose right edge is at or beyond x,
      or the last column when x lies beyond every right edge. */
  predicate IsRoleIndexAt(roles: seq<Role>, widths: map<Role, real>, x: real, r: int)
  {
    if |roles| == 0 then r == -1
    else
      0 <= r < |roles| &&
      (x <= RightEdge(roles, widths, r) || r == |roles| - 1) &&
      forall j :: 0 <= j < r ==> RightEdge(roles, widths, j) < x
  }

  /** The position kind paintRole gives to section orderIndex of count. */
  function PositionOf(orderIndex: int, count: nat): (p: SectionPosition)
    ensures 0 <= orderIndex < count ==>
      (p == OnlyOneSection <==> count == 1) &&
      (p == Beginning <==> count >= 2 && orderIndex == 0) &&
      (p == End <==> count >= 2 && orderIndex == count - 1) &&
      (p == Middle <==> 0 < orderIndex < count - 1)
  {
    if count == 1 then OnlyOneSection
    else if orderIndex == 0 then Beginning
    else if orderIndex == count - 1 then End
    else Middle
  }

  /** s is section k of a header over roles with the given widths and the
      given hovered and pressed indices. */
  predicate IsSectionOf(roles: seq<Role>, widths: map<Role, real>, hovered: int, pressed: int,
                        k: nat, s: Section)
    requires k < |roles|
  {
    s.orderIndex == k &&
    s.role == roles[k] &&
    s.left == PrefixWidth(roles, widths, k) &&
    s.width == RoleWidth(widths, roles[k]) &&
    s.position == PositionOf(k, |roles|) &&
    (s.mouseOver <==> hovered == k) &&
    (s.sunken <==> pressed == k)
  }

  /** layout is what paint draws for a header of headerWidth: one section per
      role in order, then the empty area from the total width to the end,
      both numbers truncated to whole pixels. */
  predicate IsLayoutOf(roles: seq<Role>, widths: map<Role, real>, hovered: int, pressed: int,
                       headerWidth: real, layout: Layout)
  {
    |layout.sections| == |roles| &&
    (forall k :: 0 <= k < |roles| ==> IsSectionOf(roles, widths, hovered, pressed, k, layout.sections[k])) &&
    layout.emptyLeft == TruncToInt(PrefixWidth(roles, widths, |roles|)) &&
    layout.emptyWidth == TruncToInt(headerWidth - PrefixWidth(roles, widths, |roles|))
  }

  /** With non-negative widths the left edges never decrease. */
  lemma {:induction false} PrefixWidthMonotone(roles: seq<Role>, widths: map<Role, real>, i: nat, j: nat)
    requires NonNegativeWidths(widths)
    requires i <= j <= |roles|
    ensures PrefixWidth(roles, widths, i) <= PrefixWidth(roles, widths, j)
  {
    if i < j {
      PrefixWidthMonotone(roles, widths, i, j - 1);
      assert RoleWidth(widths, roles[j - 1]) >= 0.0;
    }
  }

  /** The hit test determines one column for every position. */
  lemma RoleIndexAtUnique(roles: seq<Role>, widths: map<Role, real>, x: real, r1: int, r2: int)
    requires IsRoleIndexAt(roles, widths, x, r1)
    requires IsRoleIndexAt(roles, widths, x, r2)
    ensures r1 == r2
  {
  }

  /** Moving the pointer to the right never moves the hit column to the left. */
  lemma RoleIndexAtMonotone(roles: seq<Role>, widths: map<Role, real>, x1: real, r1: int, x2: real, r2: int)
    requires IsRoleIndexAt(roles, widths, x1, r1)
    requires IsRoleIndexAt(roles, widths, x2, r2)
    requires x1 <= x2
    ensures r1 <= r2
  {
  }

  /** With non-negative widths, a position strictly inside or on the right
      edge of column k hits column k. */
  lemma PositionInColumnHitsColumn(roles: seq<Role>, widths: map<Role, real>, x: real, k: nat)
    requires NonNegativeWidths(widths)
    requires k < |roles|
    requires PrefixWidth(roles, widths, k) < x <= RightEdge(roles, widths, k)
    ensures IsRoleIndexAt(roles, widths, x, k)
  {
    forall j | 0 <= j < k
      ensures RightEdge(roles, widths, j) < x
    {
      PrefixWidthMonotone(roles, widths, j + 1, k);
    }
  }

  /** With non-negative widths, a position beyond the total width hits the
      last column, not "no column". */
  lemma PastRightEdgeHitsLastColumn(roles: seq<Role>, widths: map<Role, real>, x: real, r: int)
    requires NonNegativeWidths(widths)
    requires |roles| > 0
    requires x > PrefixWidth(roles, widths, |roles|)
    requires IsRoleIndexAt(roles, widths, x, r)
    ensures r == |roles| - 1
  {
    if r < |roles| - 1 {
      PrefixWidthMonotone(roles, widths, r + 1, |roles|);
    }
  }

  /** With non-negative widths, a position at or left of the header's origin
      hits the first column, not "no column". */
  lemma LeftOfOriginHitsFirstColumn(roles: seq<Role>, widths: map<Role, real>, x: real, r: int)
    requires NonNegativeWidths(widths)
    requires |roles| > 0
    requires x <= 0.0
    requires IsRoleIndexAt(roles, widths, x, r)
    ensures r == 0
  {
    if r > 0 {
      assert RightEdge(roles, widths, 0) < x;
      PrefixWidthMonotone(roles, widths, 0, 1);
    }
  }

  /** Without non-negative widths a position left of the origin need not hit
      the first column: after a negative first width the first right edge
      lies left of the position. */
  lemma NegativeWidthLeftOfOrigin()
    ensures IsRoleIndexAt(["a", "b"], map["a" := -5.0, "b" := 10.0], -3.0, 1)
  {
    assert RightEdge(["a", "b"], map["a" := -5.0, "b" := 10.0], 0) == -5.0;
  }

  /** Consecutive sections touch, the first starts at 0 and the empty area
      starts at the truncated end of the last section. */
  lemma LayoutIsContiguous(roles: seq<Role>, widths: map<Role, real>, hovered: int, pressed: int,
                             headerWidth: real, layout: Layout)
    requires IsLayoutOf(roles, widths, hovered, pressed, headerWidth, layout)
    ensures |roles| > 0 ==> layout.sections[0].left == 0.0
    ensures forall k :: 0 <= k < |roles| - 1 ==>
      layout.sections[k].left + layout.sections[k].width == layout.sections[k + 1].left
    ensures |roles| > 0 ==>
      layout.emptyLeft == TruncToInt(layout.sections[|roles| - 1].left + layout.sections[|roles| - 1].width)
    ensures |roles| == 0 ==> layout.emptyLeft == 0 && layout.emptyWidth == TruncToInt(headerWidth)
  {
  }

  /** With non-negative widths, sections do not overlap, and every section
      ends less than one pixel past the start of the empty area. */
  lemma LayoutDoesNotOverlap(roles: seq<Role>, widths: map<Role, real>, hovered: int, pressed: int,
                             headerWidth: real, layout: Layout, j: nat, k: nat)
    requires NonNegativeWidths(widths)
    requires IsLayoutOf(roles, widths, hovered, pressed, headerWidth, layout)
    requires j < k < |roles|
    ensures layout.sections[j].left + layout.sections[j].width <= layout.sections[k].left
    ensures layout.sections[k].left + layout.sections[k].width < layout.emptyLeft as real + 1.0
  {
    assert IsSectionOf(roles, widths, hovered, pressed, j, layout.sections[j]);
    assert IsSectionOf(roles, widths, hovered, pressed, k, layout.sections[k]);
    PrefixWidthMonotone(roles, widths, j + 1, k);
    PrefixWidthMonotone(roles, widths, k + 1, |roles|);
  }

  /** For a position inside the drawn columns, the column the hit test
      reports is the first section whose extent contains the position. */
  lemma HitColumnContainsPosition(roles: seq<Role>, widths: map<Role, real>, hovered: int, pressed: int,
                                  headerWidth: real, layout: Layout, x: real, r: int)
    requires IsLayoutOf(roles, widths, hovered, pressed, headerWidth, layout)
    requires IsRoleIndexAt(roles, widths, x, r)
    requires |roles| > 0
    requires 0.0 <= x <= PrefixWidth(roles, widths, |roles|)
    ensures 0 <= r < |layout.sections|
    ensures layout.sections[r].left <= x <= layout.sections[r].left + layout.sections[r].width
    ensures forall k :: 0 <= k < r ==> layout.sections[k].left + layout.sections[k].width < x
  {
    assert IsSectionOf(roles, widths, hovered, pressed, r, layout.sections[r]);
    if r > 0 {
      assert RightEdge(roles, widths, r - 1) < x;
    }
    forall k | 0 <= k < r
      ensures layout.sections[k].left + layout.sections[k].width < x
    {
      assert IsSectionOf(roles, widths, hovered, pressed, k, layout.sections[k]);
      assert RightEdge(roles, widths, k) < x;
    }
  }

  /** With non-negative widths in a header at least as wide as its
      sections, the empty area lies inside the header and reaches its
      truncated right edge, or falls one pixel short of it, because the left
      edge and the width are truncated separately. */
  lemma EmptyAreaWithinHeader(roles: seq<Role>, widths: map<Role, real>, hovered: int, pressed: int,
                              headerWidth: real, layout: Layout)
    requires NonNegativeWidths(widths)
    requires IsLayoutOf(roles, widths, hovered, pressed, headerWidth, layout)
    requires PrefixWidth(roles, widths, |roles|) <= headerWidth
    ensures 0 <= layout.emptyLeft && 0 <= layout.emptyWidth
    ensures TruncToInt(headerWidth) - 1 <= layout.emptyLeft + layout.emptyWidth <= TruncToInt(headerWidth)
  {
    PrefixWidthMonotone(roles, widths, 0, |roles|);
  }

  /** The one-pixel shortfall happens: a 100-pixel header whose sections
      end at 10.5 gets an empty area from 10 that is 89 pixels wide. */
  lemma {:induction false} EmptyAreaFallsShort(hovered: int, pressed: int, layout: Layout)
    requires IsLayoutOf(["a"], map["a" := 10.5], hovered, pressed, 100.0, layout)
    ensures layout.emptyLeft == 10 && layout.emptyWidth == 89
    ensures layout.emptyLeft + layout.emptyWidth == TruncToInt(100.0) - 1
  {
    assert PrefixWidth(["a"], map["a" := 10.5], 1) == 10.5;
    assert (10.5).Floor == 10;
    assert (89.5).Floor == 89;
    assert (100.0).Floor == 100;
  }

  /** When the hovered index comes from the hit test over a non-empty header,
      exactly the hit section is drawn hovered; with no roles, none is. */
  lemma HoveredSectionIsUnique(roles: seq<Role>, widths: map<Role, real>, hovered: int, pressed: int,
                               headerWidth: real, layout: Layout, x: real)
    requires IsLayoutOf(roles, widths, hovered, pressed, headerWidth, layout)
    requires IsRoleIndexAt(roles, widths, x, hovered)
    ensures |roles| > 0 ==> layout.sections[hovered].mouseOver
    ensures forall k :: 0 <= k < |layout.sections| && layout.sections[k].mouseOver ==> k == hovered
  {
  }

  /** The header widget's state. The hovered and pressed indices are -1 for
      "none"; setting new roles does not reset them, so no invariant ties
      them to the role count. */
  class KItemListHeader {
    var model: Option<ModelId>
    var visibleRoles: seq<Role>
    var visibleRolesWidths: map<Role, real>
    var hoveredRoleIndex: int
    var pressedRoleIndex: int
    var resizePressedRole: bool
    /** How many repaints the header has requested (calls of update()). */
    var repaints: nat
    /** Whether the split (resize) cursor is set rather than the default one. */
    var splitCursor: bool

    constructor ()
      ensures model == None
      ensures visibleRoles == [] && visibleRolesWidths == map[]
      ensures hoveredRoleIndex == -1 && pressedRoleIndex == -1
      ensures !resizePressedRole && repaints == 0 && !splitCursor
    {
      model := None;
      visibleRoles := [];
      visibleRolesWidths := map[];
      hoveredRoleIndex := -1;
      pressedRoleIndex := -1;
      resizePressedRole := false;
      repaints := 0;
      splitCursor := false;
    }

    /** Requests a repaint of the header. */
    method Update()
      modifies this`repaints
      ensures repaints == old(repaints) + 1
    {
      repaints := repaints + 1;
    }

    method SetModel(m: Option<ModelId>)
      modifies this`model
      ensures model == m
    {
      if model == m {
        return;
      }
      model := m;
    }

    method Model() returns (m: Option<ModelId>)
      ensures m == model
    {
      m := model;
    }

    method SetVisibleRoles(roles: seq<Role>)
      modifies this`visibleRoles, this`repaints
      ensures visibleRoles == roles
      ensures repaints == old(repaints) + 1
    {
      visibleRoles := roles;
      Update();
    }

    method VisibleRoles() returns (roles: seq<Role>)
      ensures roles == visibleRoles
    {
      roles := visibleRoles;
    }

    method SetVisibleRolesWidths(rolesWidths: map<Role, real>)
      modifies this`visibleRolesWidths, this`repaints
      ensures visibleRolesWidths == rolesWidths
      ensures repaints == old(repaints) + 1
    {
      visibleRolesWidths := rolesWidths;
      Update();
    }

    method VisibleRolesWidths() returns (rolesWidths: map<Role, real>)
      ensures rolesWidths == visibleRolesWidths
    {
      rolesWidths := visibleRolesWidths;
    }

    /** The index of the column under horizontal position x. */
    method RoleIndexAt(x: real) returns (index: int)
      ensures -1 <= index < |visibleRoles|
      ensures index == -1 <==> |visibleRoles| == 0
      ensures IsRoleIndexAt(visibleRoles, visibleRolesWidths, x, index)
    {
      index := -1;
      var edge := 0.0;
      var i := 0;
      while i < |visibleRoles|
        invariant 0 <= i <= |visibleRoles|
        invariant index == i - 1
        invariant edge == PrefixWidth(visibleRoles, visibleRolesWidths, i)
        invariant forall j :: 0 <= j < i ==> RightEdge(visibleRoles, visibleRolesWidths, j) < x
      {
        index := index + 1;
        edge := edge + RoleWidth(visibleRolesWidths, visibleRoles[i]);
        if x <= edge {
          break;
        }
        i := i + 1;
      }
    }

    /** Whether x lies in the band of width grip ending at the right edge of
        column roleIndex (for a negative index the edge is 0). */
    method IsAboveRoleGrip(x: real, roleIndex: int, grip: int) returns (above: bool)
      requires roleIndex < |visibleRoles|
      ensures roleIndex >= 0 ==>
        (above <==> RightEdge(visibleRoles, visibleRolesWidths, roleIndex) - grip as real <= x
                    && x <= RightEdge(visibleRoles, visibleRolesWidths, roleIndex))
      ensures roleIndex < 0 ==> (above <==> -(grip as real) <= x <= 0.0)
    {
      var edge := 0.0;
      var i := 0;
      while i <= roleIndex
        invariant 0 <= i
        invariant roleIndex >= 0 ==> i <= roleIndex + 1
        invariant roleIndex < 0 ==> i == 0
        invariant edge == PrefixWidth(visibleRoles, visibleRolesWidths, i)
      {
        edge := edge + RoleWidth(visibleRolesWidths, visibleRoles[i]);
        i := i + 1;
      }
      above := x >= edge - grip as real && x <= edge;
    }

    method UpdatePressedRoleIndex(x: real)
      modifies this`pressedRoleIndex, this`repaints
      ensures IsRoleIndexAt(visibleRoles, visibleRolesWidths, x, pressedRoleIndex)
      ensures repaints == old(repaints) + (if pressedRoleIndex != old(pressedRoleIndex) then 1 else 0)
    {
      var pressedIndex := RoleIndexAt(x);
      if pressedRoleIndex != pressedIndex {
        pressedRoleIndex := pressedIndex;
        Update();
      }
    }

    method UpdateHoveredRoleIndex(x: real)
      modifies this`hoveredRoleIndex, this`repaints
      ensures IsRoleIndexAt(visibleRoles, visibleRolesWidths, x, hoveredRoleIndex)
      ensures repaints == old(repaints) + (if hoveredRoleIndex != old(hoveredRoleIndex) then 1 else 0)
    {
      var hoverIndex := RoleIndexAt(x);
      if hoveredRoleIndex != hoverIndex {
        hoveredRoleIndex := hoverIndex;
        Update();
      }
    }

    method MousePressEvent(x: real)
      modifies this`pressedRoleIndex, this`repaints
      ensures IsRoleIndexAt(visibleRoles, visibleRolesWidths, x, pressedRoleIndex)
      ensures repaints == old(repaints) + (if pressedRoleIndex != old(pressedRoleIndex) then 1 else 0)
    {
      UpdatePressedRoleIndex(x);
    }

    method MouseReleaseEvent()
      modifies this`pressedRoleIndex, this`repaints
      ensures pressedRoleIndex == -1
      ensures repaints == old(repaints) + (if old(pressedRoleIndex) != -1 then 1 else 0)
    {
      if pressedRoleIndex != -1 {
        pressedRoleIndex := -1;
        Update();
      }
    }

    method MouseMoveEvent(x: real)
      modifies this`pressedRoleIndex, this`repaints
      ensures IsRoleIndexAt(visibleRoles, visibleRolesWidths, x, pressedRoleIndex)
      ensures repaints == old(repaints) + (if pressedRoleIndex != old(pressedRoleIndex) then 1 else 0)
    {
      UpdatePressedRoleIndex(x);
    }

    method HoverEnterEvent(x: real)
      modifies this`hoveredRoleIndex, this`repaints
      ensures IsRoleIndexAt(visibleRoles, visibleRolesWidths, x, hoveredRoleIndex)
      ensures repaints == old(repaints) + (if hoveredRoleIndex != old(hoveredRoleIndex) then 1 else 0)
    {
      UpdateHoveredRoleIndex(x);
    }

    method HoverLeaveEvent()
      modifies this`hoveredRoleIndex, this`repaints
      ensures hoveredRoleIndex == -1
      ensures repaints == old(repaints) + (if old(hoveredRoleIndex) != -1 then 1 else 0)
    {
      if hoveredRoleIndex != -1 {
        hoveredRoleIndex := -1;
        Update();
      }
    }

    /** Updates the hovered column, then shows the split cursor exactly when
        the pointer is over the grip of the hovered column. */
    method HoverMoveEvent(x: real, grip: int)
      modifies this`hoveredRoleIndex, this`repaints, this`splitCursor
      ensures IsRoleIndexAt(visibleRoles, visibleRolesWidths, x, hoveredRoleIndex)
      ensures repaints == old(repaints) + (if hoveredRoleIndex != old(hoveredRoleIndex) then 1 else 0)
      ensures splitCursor <==>
        0 <= hoveredRoleIndex < |visibleRoles| &&
        RightEdge(visibleRoles, visibleRolesWidths, hoveredRoleIndex) - grip as real <= x &&
        x <= RightEdge(visibleRoles, visibleRolesWidths, hoveredRoleIndex)
    {
      UpdateHoveredRoleIndex(x);
      if hoveredRoleIndex >= 0 {
        var above := IsAboveRoleGrip(x, hoveredRoleIndex, grip);
        splitCursor := above;
      } else {
        splitCursor := false;
      }
    }

    /** The section paintRole hands to the style for role at orderIndex. */
    function PaintRole(role: Role, left: real, width: real, orderIndex: int): (s: Section)
      reads this
      ensures 0 <= orderIndex < |visibleRoles| && role == visibleRoles[orderIndex] &&
              left == PrefixWidth(visibleRoles, visibleRolesWidths, orderIndex) &&
              width == RoleWidth(visibleRolesWidths, role) ==>
        IsSectionOf(visibleRoles, visibleRolesWidths, hoveredRoleIndex, pressedRoleIndex, orderIndex, s)
    {
      Section(orderIndex, role, left, width, PositionOf(orderIndex, |visibleRoles|),
              hoveredRoleIndex == orderIndex, pressedRoleIndex == orderIndex)
    }

    /** Where paint places each section and the empty area in a header of
        headerWidth; nothing is drawn without a model. */
    method Paint(headerWidth: real) returns (layout: Option<Layout>)
      ensures layout.None? <==> model.None?
      ensures layout.Some? ==>
        IsLayoutOf(visibleRoles, visibleRolesWidths, hoveredRoleIndex, pressedRoleIndex, headerWidth, layout.value)
    {
      if model.None? {
        return None;
      }
      var x := 0.0;
      var orderIndex := 0;
      var sections := [];
      while orderIndex < |visibleRoles|
        invariant 0 <= orderIndex <= |visibleRoles|
        invariant x == PrefixWidth(visibleRoles, visibleRolesWidths, orderIndex)
        invariant |sections| == orderIndex
        invariant forall k :: 0 <= k < orderIndex ==>
          IsSectionOf(visibleRoles, visibleRolesWidths, hoveredRoleIndex, pressedRoleIndex, k, sections[k])
      {
        var role := visibleRoles[orderIndex];
        var roleWidth := RoleWidth(visibleRolesWidths, role);
        sections := sections + [PaintRole(role, x, roleWidth, orderIndex)];
        x := x + roleWidth;
        orderIndex := orderIndex + 1;
      }
      layout := Some(Layout(sections, TruncToInt(x), TruncToInt(headerWidth - x)));
    }
  }
}
