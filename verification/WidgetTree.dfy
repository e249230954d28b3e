/**
 The widget tree: what drawing paints, where a mouse click goes, who has the focus.
 Widgets are numbered in the order in which they are constructed, so a parent, which must
 exist before its children, has a smaller number; -1 is the null pointer.
 */
module WidgetTree {
  import opened Machine

  datatype Kind = Plain | Composite | Window

  datatype Widget = Widget(kind: Kind, parent: int, x: int, y: int, w: int, h: int, r: int, g: int, b: int,
                           focussable: bool, children: seq<int>, focussed: int, dragging: bool)

  const MAX_CHILDREN := 100

  ghost predicate WellLinked(ws: seq<Widget>, i: int)
    requires 0 <= i < |ws|
  {
    && -1 <= ws[i].parent < i
    && (ws[i].parent == -1 <==> i == 0)
    && (ws[i].parent >= 0 ==> ws[ws[i].parent].kind != Plain && i in ws[ws[i].parent].children)
    && (forall k :: 0 <= k < |ws[i].children| ==> i < ws[i].children[k] < |ws| && ws[ws[i].children[k]].parent == i)
    && (forall j, k :: 0 <= j < k < |ws[i].children| ==> ws[i].children[j] != ws[i].children[k])
    && |ws[i].children| <= (if ws[i].kind == Plain then 0 else MAX_CHILDREN)
    && (ws[i].focussed == -1 || ws[i].focussed in ws[i].children)
  }

  /** Widget 0 is the root, parent links match containment, and the focus is always on a child. */
  ghost predicate Tree(ws: seq<Widget>) {
    forall i :: 0 <= i < |ws| ==> WellLinked(ws, i)
  }

  function Child(ws: seq<Widget>, i: int, k: nat): (c: int)
    requires Tree(ws) && 0 <= i < |ws| && k < |ws[i].children|
    ensures c == ws[i].children[k] && i < c < |ws| && ws[c].parent == i
  {
    assert WellLinked(ws, i);
    ws[i].children[k]
  }

  // ----- geometry -----

  predicate ContainsCoordinate(w: Widget, x: int, y: int) {
    w.x <= x && x < w.x + w.w && w.y <= y && y < w.y + w.h
  }

  /** Screen position of the point (0, 0) of widget i; with -1 for i, of the screen. */
  function Origin(ws: seq<Widget>, i: int): (int, int)
    requires Tree(ws) && -1 <= i < |ws|
    decreases i
  {
    if i == -1 then (0, 0)
    else
      assert WellLinked(ws, i);
      var o := Origin(ws, ws[i].parent);
      (o.0 + ws[i].x, o.1 + ws[i].y)
  }

  /** The part of child c drawn or clicked lies in its parent. */
  ghost predicate Inside(c: Widget, p: Widget) {
    0 <= c.x && 0 <= c.y && 0 <= c.w && 0 <= c.h && c.x + c.w <= p.w && c.y + c.h <= p.h
  }

  ghost predicate Nested(ws: seq<Widget>)
    requires Tree(ws)
  {
    forall i, k :: 0 <= i < |ws| && 0 <= k < |ws[i].children| ==> Inside(ws[Child(ws, i, k)], ws[i])
  }

  // ----- clicking -----

  /** First child of widget i, from the k-th on, that contains the point; |children| if none. */
  function FirstHit(ws: seq<Widget>, i: int, k: nat, x: int, y: int): (r: nat)
    requires Tree(ws) && 0 <= i < |ws| && k <= |ws[i].children|
    ensures k <= r <= |ws[i].children|
    ensures forall j :: k <= j < r ==> !ContainsCoordinate(ws[Child(ws, i, j)], x, y)
    ensures r < |ws[i].children| ==> ContainsCoordinate(ws[Child(ws, i, r)], x, y)
    decreases |ws[i].children| - k
  {
    if k == |ws[i].children| || ContainsCoordinate(ws[Child(ws, i, k)], x, y) then k
    else FirstHit(ws, i, k + 1, x, y)
  }

  /** The child of widget i that a click is passed to, or -1. */
  function Next(ws: seq<Widget>, i: int, x: int, y: int): (c: int)
    requires Tree(ws) && 0 <= i < |ws|
    ensures c == -1 || i < c < |ws|
  {
    var k := FirstHit(ws, i, 0, x - ws[i].x, y - ws[i].y);
    if k == |ws[i].children| then -1 else Child(ws, i, k)
  }

  /** The widget a mouse-down given to widget i descends to; (x, y) is relative to i's parent. */
  function Hit(ws: seq<Widget>, i: int, x: int, y: int): (r: int)
    requires Tree(ws) && 0 <= i < |ws|
    ensures i <= r < |ws|
    decreases |ws| - i
  {
    var c := Next(ws, i, x, y);
    if c == -1 then i else Hit(ws, c, x - ws[i].x, y - ws[i].y)
  }

  // ----- painting -----

  function ColorIndex(r: int, g: int, b: int): int {
    if r == 0x00 && g == 0x00 && b == 0x00 then 0x00
    else if r == 0x00 && g == 0x00 && b == 0xA8 then 0x01
    else if r == 0x00 && g == 0xA8 && b == 0x00 then 0x02
    else if r == 0xA8 && g == 0x00 && b == 0x00 then 0x04
    else if r == 0xFF && g == 0xFF && b == 0xFF then 0x3F
    else 0x00
  }

  function ColorOf(w: Widget): int {
    ColorIndex(w.r, w.g, w.b)
  }

  predicate InRectangle(px: int, py: int, x: int, y: int, w: int, h: int) {
    x <= px < x + w && y <= py < y + h
  }

  /**
   The pixels that filling a rectangle reaches. Its loops compare as `uint32_t`: with a negative
   corner they reach no pixel of the screen, even where the rectangle overlaps it.
   */
  predicate Filled(px: int, py: int, x: int, y: int, w: int, h: int) {
    U32(x) <= px < U32(x + w) && U32(y) <= py < U32(y + h)
  }

  predicate OnOwn(ws: seq<Widget>, i: int, px: int, py: int)
    requires Tree(ws) && 0 <= i < |ws|
  {
    var o := Origin(ws, i);
    Filled(px, py, o.0, o.1, ws[i].w, ws[i].h)
  }

  /** Colour of pixel (px, py), first `under`, after widget i with everything in it is drawn. */
  function Paint(ws: seq<Widget>, i: int, px: int, py: int, under: int): int
    requires Tree(ws) && 0 <= i < |ws|
    decreases |ws| - i, |ws[i].children| + 1
  {
    PaintChildren(ws, i, 0, px, py, if OnOwn(ws, i, px, py) then ColorOf(ws[i]) else under)
  }

  /** The children of widget i from the last down to the k-th are drawn, in that order. */
  function PaintChildren(ws: seq<Widget>, i: int, k: nat, px: int, py: int, under: int): int
    requires Tree(ws) && 0 <= i < |ws| && k <= |ws[i].children|
    decreases |ws| - i, |ws[i].children| - k
  {
    if k == |ws[i].children| then under
    else Paint(ws, Child(ws, i, k), px, py, PaintChildren(ws, i, k + 1, px, py, under))
  }

  // ----- the widget shown -----

  /** Widget i or something in it, at any depth, covers the pixel. */
  predicate Covers(ws: seq<Widget>, i: int, px: int, py: int)
    requires Tree(ws) && 0 <= i < |ws|
    decreases |ws| - i, |ws[i].children| + 1
  {
    OnOwn(ws, i, px, py) || FirstCover(ws, i, 0, px, py) < |ws[i].children|
  }

  /** First child of widget i, from the k-th on, that covers the pixel; |children| if none. */
  function FirstCover(ws: seq<Widget>, i: int, k: nat, px: int, py: int): (r: nat)
    requires Tree(ws) && 0 <= i < |ws| && k <= |ws[i].children|
    ensures k <= r <= |ws[i].children|
    ensures forall j :: k <= j < r ==> !Covers(ws, Child(ws, i, j), px, py)
    ensures r < |ws[i].children| ==> Covers(ws, Child(ws, i, r), px, py)
    decreases |ws| - i, |ws[i].children| - k
  {
    if k == |ws[i].children| || Covers(ws, Child(ws, i, k), px, py) then k
    else FirstCover(ws, i, k + 1, px, py)
  }

  /** The widget shown at a pixel that widget i covers: down to the first child that covers it. */
  function Top(ws: seq<Widget>, i: int, px: int, py: int): (r: int)
    requires Tree(ws) && 0 <= i < |ws|
    ensures i <= r < |ws|
    decreases |ws| - i
  {
    var k := FirstCover(ws, i, 0, px, py);
    if k == |ws[i].children| then i else Top(ws, Child(ws, i, k), px, py)
  }

  /** In every tree, drawing shows at each pixel the widget Top gives, and changes no pixel not covered. */
  lemma {:induction false} DrawnIsTop(ws: seq<Widget>, i: int, px: int, py: int, under: int)
    requires Tree(ws) && 0 <= i < |ws|
    ensures Paint(ws, i, px, py, under) ==
            if Covers(ws, i, px, py) then ColorOf(ws[Top(ws, i, px, py)]) else under
    decreases |ws| - i, |ws[i].children| + 1
  {
    ChildrenDrawnAsTop(ws, i, 0, px, py, if OnOwn(ws, i, px, py) then ColorOf(ws[i]) else under);
  }

  lemma {:induction false} ChildrenDrawnAsTop(ws: seq<Widget>, i: int, k: nat, px: int, py: int, under: int)
    requires Tree(ws) && 0 <= i < |ws| && k <= |ws[i].children|
    ensures var f := FirstCover(ws, i, k, px, py);
            PaintChildren(ws, i, k, px, py, under) ==
            if f == |ws[i].children| then under else ColorOf(ws[Top(ws, Child(ws, i, f), px, py)])
    decreases |ws| - i, |ws[i].children| - k
  {
    if k < |ws[i].children| {
      ChildrenDrawnAsTop(ws, i, k + 1, px, py, under);
      DrawnIsTop(ws, Child(ws, i, k), px, py, PaintChildren(ws, i, k + 1, px, py, under));
    }
  }

  // ----- when the widget shown is the widget clicked -----

  ghost predicate OnWidget(ws: seq<Widget>, i: int, px: int, py: int)
    requires Tree(ws) && 0 <= i < |ws|
  {
    var o := Origin(ws, i);
    InRectangle(px, py, o.0, o.1, ws[i].w, ws[i].h)
  }

  /** The pixel in the coordinates in which widget i is asked whether it contains it. */
  function Local(ws: seq<Widget>, i: int, px: int, py: int): (int, int)
    requires Tree(ws) && 0 <= i < |ws|
  {
    assert WellLinked(ws, i);
    (px - Origin(ws, ws[i].parent).0, py - Origin(ws, ws[i].parent).1)
  }

  /** The widget that a mouse-down at the pixel descends to, once it is given to widget i. */
  function Clicked(ws: seq<Widget>, i: int, px: int, py: int): (r: int)
    requires Tree(ws) && 0 <= i < |ws|
    ensures i <= r < |ws|
  {
    Hit(ws, i, Local(ws, i, px, py).0, Local(ws, i, px, py).1)
  }

  /** The child of widget i that such a mouse-down is passed to; |children| if none. */
  function ClickedChild(ws: seq<Widget>, i: int, px: int, py: int): (k: nat)
    requires Tree(ws) && 0 <= i < |ws|
    ensures k <= |ws[i].children|
  {
    FirstHit(ws, i, 0, px - Origin(ws, i).0, py - Origin(ws, i).1)
  }

  lemma ClickedUnfolds(ws: seq<Widget>, i: int, px: int, py: int)
    requires Tree(ws) && 0 <= i < |ws|
    ensures var k := ClickedChild(ws, i, px, py);
            Clicked(ws, i, px, py) == if k == |ws[i].children| then i else Clicked(ws, Child(ws, i, k), px, py)
  {
    assert WellLinked(ws, i);
  }

  /**
   At every widget on the way of the click, no child before the one clicked covers the pixel, and
   the one clicked does; where no child is clicked, none covers it.
   */
  ghost predicate Agree(ws: seq<Widget>, i: int, px: int, py: int)
    requires Tree(ws) && 0 <= i < |ws|
    decreases |ws| - i
  {
    var k := ClickedChild(ws, i, px, py);
    && (forall j :: 0 <= j < k ==> !Covers(ws, Child(ws, i, j), px, py))
    && (k < |ws[i].children| ==>
          Covers(ws, Child(ws, i, k), px, py) && Agree(ws, Child(ws, i, k), px, py))
  }

  /** Widget d is widget a or lies in it, at any depth. */
  ghost predicate Within(ws: seq<Widget>, a: int, d: int)
    requires Tree(ws) && 0 <= a < |ws| && 0 <= d < |ws|
    decreases d
  {
    d == a || (d > a && (assert WellLinked(ws, d); Within(ws, a, ws[d].parent)))
  }

  lemma {:induction false} WithinParent(ws: seq<Widget>, i: int, k: nat, d: int)
    requires Tree(ws) && 0 <= i < |ws| && k < |ws[i].children| && 0 <= d < |ws| && Within(ws, Child(ws, i, k), d)
    ensures Within(ws, i, d)
    decreases d
  {
    assert WellLinked(ws, d);
    if d != Child(ws, i, k) {
      WithinParent(ws, i, k, ws[d].parent);
    } else {
      assert Within(ws, i, i);
    }
  }

  /** No widget lies in two different children. */
  lemma {:induction false} SiblingsDisjoint(ws: seq<Widget>, i: int, j: nat, k: nat, d: int)
    requires Tree(ws) && 0 <= i < |ws| && j < |ws[i].children| && k < |ws[i].children| && 0 <= d < |ws|
    requires Within(ws, Child(ws, i, j), d) && Within(ws, Child(ws, i, k), d)
    ensures j == k
    decreases d
  {
    assert WellLinked(ws, i) && WellLinked(ws, d);
    if d != Child(ws, i, j) && d != Child(ws, i, k) {
      SiblingsDisjoint(ws, i, j, k, ws[d].parent);
    }
  }

  lemma {:induction false} TopWithin(ws: seq<Widget>, i: int, px: int, py: int)
    requires Tree(ws) && 0 <= i < |ws|
    ensures Within(ws, i, Top(ws, i, px, py))
    decreases |ws| - i
  {
    var k := FirstCover(ws, i, 0, px, py);
    if k < |ws[i].children| {
      TopWithin(ws, Child(ws, i, k), px, py);
      WithinParent(ws, i, k, Top(ws, i, px, py));
    }
  }

  lemma {:induction false} ClickedWithin(ws: seq<Widget>, i: int, px: int, py: int)
    requires Tree(ws) && 0 <= i < |ws|
    ensures Within(ws, i, Clicked(ws, i, px, py))
    decreases |ws| - i
  {
    ClickedUnfolds(ws, i, px, py);
    var k := ClickedChild(ws, i, px, py);
    if k < |ws[i].children| {
      ClickedWithin(ws, Child(ws, i, k), px, py);
      WithinParent(ws, i, k, Clicked(ws, i, px, py));
    }
  }

  /** Where the widget shown and the widget clicked lie in different children, they differ. */
  lemma SameChild(ws: seq<Widget>, i: int, px: int, py: int)
    requires Tree(ws) && 0 <= i < |ws| && Top(ws, i, px, py) == Clicked(ws, i, px, py)
    ensures FirstCover(ws, i, 0, px, py) == ClickedChild(ws, i, px, py)
  {
    ClickedUnfolds(ws, i, px, py);
    var f, k, n := FirstCover(ws, i, 0, px, py), ClickedChild(ws, i, px, py), |ws[i].children|;
    if f < n && k < n {
      TopWithin(ws, Child(ws, i, f), px, py);
      ClickedWithin(ws, Child(ws, i, k), px, py);
      SiblingsDisjoint(ws, i, f, k, Top(ws, i, px, py));
    }
  }

  /** In every tree, the widget shown at a pixel is the one a click there reaches if and only if Agree. */
  lemma {:induction false} ShownIsClickedIff(ws: seq<Widget>, i: int, px: int, py: int)
    requires Tree(ws) && 0 <= i < |ws|
    ensures Top(ws, i, px, py) == Clicked(ws, i, px, py) <==> Agree(ws, i, px, py)
    decreases |ws| - i
  {
    ClickedUnfolds(ws, i, px, py);
    var f, k, n := FirstCover(ws, i, 0, px, py), ClickedChild(ws, i, px, py), |ws[i].children|;
    if f == k {
      if k < n {
        ShownIsClickedIff(ws, Child(ws, i, k), px, py);
      }
    } else {
      if Top(ws, i, px, py) == Clicked(ws, i, px, py) {
        SameChild(ws, i, px, py);
      }
      assert f < k ==> Covers(ws, Child(ws, i, f), px, py);
      assert k < f ==> !Covers(ws, Child(ws, i, k), px, py);
    }
  }

  // ----- nested widgets -----

  /** Widget i lies at screen coordinates that unsigned and signed comparisons order alike. */
  ghost predicate Plottable(ws: seq<Widget>, i: int)
    requires Tree(ws) && 0 <= i < |ws|
  {
    var o := Origin(ws, i);
    0 <= o.0 && 0 <= o.1 && 0 <= ws[i].w && 0 <= ws[i].h && o.0 + ws[i].w < TWO_32 && o.1 + ws[i].h < TWO_32
  }

  /** A nested child is asked in the coordinates of its parent, lies on it, and is drawn where it lies. */
  lemma OnChild(ws: seq<Widget>, i: int, k: nat, px: int, py: int)
    requires Tree(ws) && Nested(ws) && 0 <= i < |ws| && k < |ws[i].children| && Plottable(ws, i)
    ensures var c, x, y := Child(ws, i, k), px - Origin(ws, i).0, py - Origin(ws, i).1;
            && Plottable(ws, c)
            && (OnWidget(ws, c, px, py) <==> ContainsCoordinate(ws[c], x, y))
            && (OnWidget(ws, c, px, py) ==> OnWidget(ws, i, px, py))
  {
    var c := Child(ws, i, k);
    assert WellLinked(ws, c) && Inside(ws[c], ws[i]);
  }

  lemma PlottedWhole(ws: seq<Widget>, i: int, px: int, py: int)
    requires Tree(ws) && 0 <= i < |ws| && Plottable(ws, i)
    ensures OnOwn(ws, i, px, py) <==> OnWidget(ws, i, px, py)
  {
  }

  /** Nested widgets cover exactly their own rectangle, and are shown where they are clicked. */
  lemma {:induction false} NestedAgree(ws: seq<Widget>, i: int, px: int, py: int)
    requires Tree(ws) && Nested(ws) && 0 <= i < |ws| && Plottable(ws, i)
    ensures Covers(ws, i, px, py) <==> OnWidget(ws, i, px, py)
    ensures Agree(ws, i, px, py)
    decreases |ws| - i
  {
    PlottedWhole(ws, i, px, py);
    forall k | 0 <= k < |ws[i].children|
      ensures var c, x, y := Child(ws, i, k), px - Origin(ws, i).0, py - Origin(ws, i).1;
              && (Covers(ws, c, px, py) <==> ContainsCoordinate(ws[c], x, y)) && Agree(ws, c, px, py)
              && (Covers(ws, c, px, py) ==> OnWidget(ws, i, px, py))
    {
      OnChild(ws, i, k, px, py);
      NestedAgree(ws, Child(ws, i, k), px, py);
    }
  }

  /**
   After drawing widget i, each pixel of its rectangle has the colour of the widget that a
   mouse-down there descends to, and every other pixel has the colour it had.
   */
  lemma DrawnIsHit(ws: seq<Widget>, i: int, px: int, py: int, under: int)
    requires Tree(ws) && Nested(ws) && 0 <= i < |ws| && Plottable(ws, i)
    ensures OnWidget(ws, i, px, py) ==>
              Paint(ws, i, px, py, under) == ColorOf(ws[Hit(ws, i, Local(ws, i, px, py).0, Local(ws, i, px, py).1)])
    ensures !OnWidget(ws, i, px, py) ==> Paint(ws, i, px, py, under) == under
  {
    DrawnIsTop(ws, i, px, py, under);
    NestedAgree(ws, i, px, py);
    ShownIsClickedIff(ws, i, px, py);
  }

  /** The same for the whole tree, in screen coordinates: the root lies at (0, 0). */
  lemma RootDrawnIsHit(ws: seq<Widget>, px: int, py: int, under: int)
    requires Tree(ws) && Nested(ws) && ws != [] && ws[0].x == 0 && ws[0].y == 0
    requires 0 <= ws[0].w < TWO_32 && 0 <= ws[0].h < TWO_32
    ensures Paint(ws, 0, px, py, under) ==
            if InRectangle(px, py, 0, 0, ws[0].w, ws[0].h) then ColorOf(ws[Hit(ws, 0, px, py)]) else under
  {
    assert WellLinked(ws, 0);
    DrawnIsHit(ws, 0, px, py, under);
  }

  // ----- trees in which they differ -----

  /** A grandchild that sticks out of its parent is drawn there, but a click on that part reaches the root. */
  lemma OverhangDrawnNotHit() returns (ws: seq<Widget>)
    ensures Tree(ws) && |ws| == 3 && ws[0].x == 0 && ws[0].y == 0 && OnWidget(ws, 0, 12, 12)
    ensures Paint(ws, 0, 12, 12, 0) == ColorOf(ws[2]) != ColorOf(ws[0]) && Hit(ws, 0, 12, 12) == 0
  {
    ws := [Widget(Composite, -1, 0, 0, 20, 20, 0, 0, 0xA8, true, [1], -1, false),
           Widget(Composite, 0, 5, 5, 5, 5, 0, 0xA8, 0, true, [2], -1, false),
           Widget(Plain, 1, 4, 4, 9, 9, 0xA8, 0, 0, true, [], -1, false)];
    assert WellLinked(ws, 0) && WellLinked(ws, 1) && WellLinked(ws, 2);
    assert Origin(ws, 0) == (0, 0) && Origin(ws, 1) == (5, 5) && Origin(ws, 2) == (9, 9);
    assert Covers(ws, 2, 12, 12) && Top(ws, 2, 12, 12) == 2;
    assert Covers(ws, 1, 12, 12) && Top(ws, 1, 12, 12) == 2;
    DrawnIsTop(ws, 0, 12, 12, 0);
    assert FirstHit(ws, 0, 0, 12, 12) == 1;
  }

  /** A window pushed over the left edge is not drawn at all, but a click on its visible part reaches it. */
  lemma EdgeHitNotDrawn() returns (ws: seq<Widget>)
    ensures Tree(ws) && |ws| == 2 && ws[0].x == 0 && ws[0].y == 0 && OnWidget(ws, 1, 3, 7)
    ensures Paint(ws, 0, 3, 7, 0) == ColorOf(ws[0]) != ColorOf(ws[1]) && Hit(ws, 0, 3, 7) == 1
  {
    ws := [Widget(Composite, -1, 0, 0, 20, 20, 0, 0, 0xA8, true, [1], -1, false),
           Widget(Window, 0, -1, 5, 10, 10, 0, 0xA8, 0, true, [], -1, false)];
    assert WellLinked(ws, 0) && WellLinked(ws, 1);
    assert Origin(ws, 0) == (0, 0) && Origin(ws, 1) == (-1, 5);
    assert FirstCover(ws, 1, 0, 3, 7) == 0 && !Covers(ws, 1, 3, 7);
    assert FirstCover(ws, 0, 0, 3, 7) == 1 && Covers(ws, 0, 3, 7);
    DrawnIsTop(ws, 0, 3, 7, 0);
    assert FirstHit(ws, 0, 0, 3, 7) == 0 && Hit(ws, 1, 3, 7) == 1;
  }
}
