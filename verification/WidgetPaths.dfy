/** Exactly which widgets a mouse event changes, found by the place of the pointer on the screen. */
module WidgetPaths {
  import opened WidgetTree
  import opened WidgetEvents

  /** Widget j is asked by a click at the pixel that has been given to widget i. */
  ghost predicate OnWay(ws: seq<Widget>, i: int, px: int, py: int, j: int)
    requires Tree(ws) && 0 <= i < |ws|
    decreases |ws| - i
  {
    var k := ClickedChild(ws, i, px, py);
    j == i || (k < |ws[i].children| && OnWay(ws, Child(ws, i, k), px, py, j))
  }

  lemma {:induction false} OnWayFrom(ws: seq<Widget>, i: int, px: int, py: int, j: int)
    requires Tree(ws) && 0 <= i < |ws| && OnWay(ws, i, px, py, j)
    ensures i <= j < |ws|
    decreases |ws| - i
  {
    if j != i {
      OnWayFrom(ws, Child(ws, i, ClickedChild(ws, i, px, py)), px, py, j);
    }
  }

  /** The child that an event at the pixel is passed to. */
  lemma Descent(ws: seq<Widget>, i: int, px: int, py: int)
    requires Tree(ws) && 0 <= i < |ws|
    ensures var k, at := ClickedChild(ws, i, px, py), Local(ws, i, px, py);
            if k == |ws[i].children| then Next(ws, i, at.0, at.1) == -1
            else Next(ws, i, at.0, at.1) == Child(ws, i, k)
  {
    assert WellLinked(ws, i);
  }

  /** It is passed on in the child's coordinates. */
  lemma ChildLocal(ws: seq<Widget>, i: int, k: nat, px: int, py: int)
    requires Tree(ws) && 0 <= i < |ws| && k < |ws[i].children|
    ensures Local(ws, Child(ws, i, k), px, py).0 == Local(ws, i, px, py).0 - ws[i].x
    ensures Local(ws, Child(ws, i, k), px, py).1 == Local(ws, i, px, py).1 - ws[i].y
  {
    assert WellLinked(ws, i) && WellLinked(ws, Child(ws, i, k));
  }

  // ----- focus and dragging do not matter to the way -----

  lemma {:induction false} SamePlaceSameOrigin(a: seq<Widget>, b: seq<Widget>, i: int)
    requires Tree(a) && Tree(b) && SamePlace(a, b) && -1 <= i < |a|
    ensures Origin(a, i) == Origin(b, i)
    decreases i
  {
    if i >= 0 {
      assert WellLinked(a, i);
      SamePlaceSameOrigin(a, b, a[i].parent);
    }
  }

  lemma {:induction false} SamePlaceSameWay(a: seq<Widget>, b: seq<Widget>, i: int, px: int, py: int, j: int)
    requires Tree(a) && Tree(b) && SamePlace(a, b) && 0 <= i < |a|
    ensures Local(a, i, px, py) == Local(b, i, px, py)
    ensures OnWay(a, i, px, py, j) <==> OnWay(b, i, px, py, j)
    decreases |a| - i
  {
    assert WellLinked(a, i);
    SamePlaceSameOrigin(a, b, a[i].parent);
    SamePlaceSameOrigin(a, b, i);
    SamePlaceSameHit(a, b, i, 0, px - Origin(a, i).0, py - Origin(a, i).1);
    var k := ClickedChild(a, i, px, py);
    if k < |a[i].children| {
      SamePlaceSameWay(a, b, Child(a, i, k), px, py, j);
    }
  }

  // ----- which windows start and stop dragging -----

  /** A mouse-down at the pixel, given to widget i. */
  function DownAt(ws: seq<Widget>, i: int, px: int, py: int, button: int): (r: seq<Widget>)
    requires Tree(ws) && 0 <= i < |ws|
    ensures |r| == |ws|
  {
    MouseDown(ws, i, Local(ws, i, px, py).0, Local(ws, i, px, py).1, button)
  }

  lemma SamePlaceSameDescent(a: seq<Widget>, b: seq<Widget>, i: int, px: int, py: int)
    requires Tree(a) && Tree(b) && SamePlace(a, b) && 0 <= i < |a|
    ensures Local(a, i, px, py) == Local(b, i, px, py) && ClickedChild(a, i, px, py) == ClickedChild(b, i, px, py)
  {
    assert WellLinked(a, i);
    SamePlaceSameOrigin(a, b, a[i].parent);
    SamePlaceSameOrigin(a, b, i);
    SamePlaceSameHit(a, b, i, 0, px - Origin(a, i).0, py - Origin(a, i).1);
  }

  lemma DownAtContainer(ws: seq<Widget>, i: int, px: int, py: int, button: int)
    requires Tree(ws) && 0 <= i < |ws| && ws[i].kind != Plain
    ensures var ws1, k := Pressed(ws, i, button), ClickedChild(ws, i, px, py);
            DownAt(ws, i, px, py, button) ==
            if k == |ws[i].children| then ws1 else DownAt(ws1, Child(ws, i, k), px, py, button)
  {
    var ws1, k, at := Pressed(ws, i, button), ClickedChild(ws, i, px, py), Local(ws, i, px, py);
    PressedKeepsPlace(ws, i, button);
    SamePlaceSameDescent(ws1, ws, i, px, py);
    MouseDownDescends(ws, i, at.0, at.1, button);
    Descent(ws1, i, px, py);
    if k < |ws[i].children| {
      ChildLocal(ws1, i, k, px, py);
    }
  }

  /** The widgets on the way are the one asked and those on the way from the child clicked. */
  lemma OnWayUnfolds(ws: seq<Widget>, i: int, px: int, py: int, j: int)
    requires Tree(ws) && 0 <= i < |ws|
    ensures var k := ClickedChild(ws, i, px, py);
            OnWay(ws, i, px, py, j) <==>
            j == i || (k < |ws[i].children| && OnWay(ws, Child(ws, i, k), px, py, j) && j > i)
  {
    var k := ClickedChild(ws, i, px, py);
    if k < |ws[i].children| && OnWay(ws, Child(ws, i, k), px, py, j) {
      OnWayFrom(ws, Child(ws, i, k), px, py, j);
    }
  }

  /** A mouse-down sets dragging for the left button, and clears it for others, in the windows on its way only. */
  lemma {:induction false} MouseDownDragging(ws: seq<Widget>, i: int, px: int, py: int, button: int, j: int)
    requires Tree(ws) && 0 <= i < |ws| && 0 <= j < |ws|
    ensures DownAt(ws, i, px, py, button)[j].dragging ==
            if OnWay(ws, i, px, py, j) && ws[j].kind == Window then button == 1 else ws[j].dragging
    decreases |ws| - i
  {
    OnWayUnfolds(ws, i, px, py, j);
    if ws[i].kind == Plain {
      PlainDownDragging(ws, i, px, py, button, j);
    } else {
      var ws1, k := Pressed(ws, i, button), ClickedChild(ws, i, px, py);
      PressedKeepsPlace(ws, i, button);
      DownAtContainer(ws, i, px, py, button);
      if k < |ws[i].children| {
        MouseDownDragging(ws1, Child(ws, i, k), px, py, button, j);
        SamePlaceSameWay(ws1, ws, Child(ws, i, k), px, py, j);
        OnWayNotAbove(ws1, Child(ws, i, k), px, py, i);
      }
    }
  }

  lemma OnWayNotAbove(ws: seq<Widget>, i: int, px: int, py: int, j: int)
    requires Tree(ws) && 0 <= i < |ws| && j < i
    ensures !OnWay(ws, i, px, py, j)
  {
    if OnWay(ws, i, px, py, j) {
      OnWayFrom(ws, i, px, py, j);
    }
  }

  lemma PlainDownDragging(ws: seq<Widget>, i: int, px: int, py: int, button: int, j: int)
    requires Tree(ws) && 0 <= i < |ws| && 0 <= j < |ws| && ws[i].kind == Plain
    ensures DownAt(ws, i, px, py, button)[j].dragging == ws[j].dragging
    ensures ws[i].children == []
  {
    assert WellLinked(ws, i);
    if ws[i].focussable {
      GetFocusKeepsRest(ws, i, i);
    }
  }

  lemma ReleasedKeepsPlace(ws: seq<Widget>, i: int)
    requires Tree(ws) && 0 <= i < |ws|
    ensures SamePlace(Released(ws, i), ws)
    ensures forall j :: 0 <= j < |ws| && j != i ==> Released(ws, i)[j].dragging == ws[j].dragging
    ensures Released(ws, i)[i].dragging == if ws[i].kind == Window then false else ws[i].dragging
  {
  }

  /** A mouse-up at the pixel, given to widget i. */
  function UpAt(ws: seq<Widget>, i: int, px: int, py: int): (r: seq<Widget>)
    requires Tree(ws) && 0 <= i < |ws|
    ensures |r| == |ws|
  {
    MouseUp(ws, i, Local(ws, i, px, py).0, Local(ws, i, px, py).1)
  }

  lemma MouseUpDescends(ws: seq<Widget>, i: int, x: int, y: int)
    requires Tree(ws) && 0 <= i < |ws| && ws[i].kind != Plain
    ensures var ws1 := Released(ws, i);
            var c := Next(ws1, i, x, y);
            MouseUp(ws, i, x, y) == if c == -1 then ws1 else MouseUp(ws1, c, x - ws1[i].x, y - ws1[i].y)
  {
  }

  lemma UpAtContainer(ws: seq<Widget>, i: int, px: int, py: int)
    requires Tree(ws) && 0 <= i < |ws| && ws[i].kind != Plain
    ensures var ws1, k := Released(ws, i), ClickedChild(ws, i, px, py);
            UpAt(ws, i, px, py) == if k == |ws[i].children| then ws1 else UpAt(ws1, Child(ws, i, k), px, py)
  {
    var ws1, k, at := Released(ws, i), ClickedChild(ws, i, px, py), Local(ws, i, px, py);
    ReleasedKeepsPlace(ws, i);
    SamePlaceSameDescent(ws1, ws, i, px, py);
    MouseUpDescends(ws, i, at.0, at.1);
    Descent(ws1, i, px, py);
    if k < |ws[i].children| {
      ChildLocal(ws1, i, k, px, py);
    }
  }

  /** A mouse-up ends the drag of the windows on its way and of no other. */
  lemma {:induction false} MouseUpDragging(ws: seq<Widget>, i: int, px: int, py: int, j: int)
    requires Tree(ws) && 0 <= i < |ws| && 0 <= j < |ws|
    ensures UpAt(ws, i, px, py)[j].dragging ==
            if OnWay(ws, i, px, py, j) && ws[j].kind == Window then false else ws[j].dragging
    decreases |ws| - i
  {
    assert WellLinked(ws, i);
    OnWayUnfolds(ws, i, px, py, j);
    if ws[i].kind != Plain {
      var ws1, k := Released(ws, i), ClickedChild(ws, i, px, py);
      ReleasedKeepsPlace(ws, i);
      UpAtContainer(ws, i, px, py);
      if k < |ws[i].children| {
        MouseUpDragging(ws1, Child(ws, i, k), px, py, j);
        SamePlaceSameWay(ws1, ws, Child(ws, i, k), px, py, j);
        OnWayNotAbove(ws1, Child(ws, i, k), px, py, i);
      }
    }
  }

  // ----- where the focus links point -----

  lemma WithinBelow(ws: seq<Widget>, a: int, d: int)
    requires Tree(ws) && 0 <= a < |ws| && 0 <= d < |ws|
    ensures Within(ws, a, d) ==> a <= d
  {
  }

  lemma {:induction false} SameParentsWithin(a: seq<Widget>, b: seq<Widget>, i: int, d: int)
    requires Tree(a) && Tree(b) && |a| == |b| && 0 <= i < |a| && 0 <= d < |a|
    requires forall j :: 0 <= j < |a| ==> a[j].parent == b[j].parent
    ensures Within(a, i, d) <==> Within(b, i, d)
    decreases d
  {
    assert WellLinked(a, d);
    if d > i {
      SameParentsWithin(a, b, i, a[d].parent);
    }
  }

  /**
   After `GetFocus(arg)` on container i, every container around arg has its focus on the child that
   holds arg, and every other widget has the focus it had.
   */
  lemma {:induction false} GetFocusLinks(ws: seq<Widget>, i: int, arg: int, j: int)
    requires Tree(ws) && 0 <= i < arg < |ws| && ws[i].kind != Plain && arg in ws[i].children && 0 <= j < |ws|
    ensures var f := GetFocus(ws, i, arg)[j].focussed;
            if Within(ws, j, i) then f in ws[j].children && 0 <= f < |ws| && Within(ws, f, arg) else f == ws[j].focussed
    decreases i
  {
    FocusOnChild(ws, i, arg);
    assert WellLinked(ws, i);
    var ws1, p := ws[i := ws[i].(focussed := arg)], ws[i].parent;
    if p == -1 {
      WithinBelow(ws, j, i);
    } else {
      GetFocusLinks(ws1, p, i, j);
      SameParentsWithin(ws, ws1, j, p);
      var f := GetFocus(ws1, p, i)[j].focussed;
      if j == i {
        WithinBelow(ws, i, p);
      } else if Within(ws, j, p) {
        SameParentsWithin(ws, ws1, f, i);
        WithinBelow(ws, f, i);
      }
    }
  }

  lemma PlainClickLinks(ws: seq<Widget>, i: int, x: int, y: int, button: int, j: int)
    requires Tree(ws) && 0 <= i < |ws| && ws[i].kind == Plain && 0 <= j < |ws|
    ensures var f := MouseDown(ws, i, x, y, button)[j].focussed;
            if Focussing(ws, i, x, y) != -1 && j != i && Within(ws, j, i) then
              f in ws[j].children && 0 <= f < |ws| && Within(ws, f, i)
            else f == ws[j].focussed
  {
    PlainIsHit(ws, i, x, y);
    assert WellLinked(ws, i);
    if i > 0 && ws[i].focussable {
      GetFocusLinks(ws, ws[i].parent, i, j);
      WithinBelow(ws, i, ws[i].parent);
    }
    WithinBelow(ws, j, i);
  }

  /** The focus of widget j is right for a click on widget h that gives the focus, or not. */
  ghost predicate FocusRight(ws: seq<Widget>, j: int, f: int, h: int, gives: bool)
    requires Tree(ws) && 0 <= j < |ws| && 0 <= h < |ws|
  {
    if gives && j != h && Within(ws, j, h) then f in ws[j].children && 0 <= f < |ws| && Within(ws, f, h)
    else f == ws[j].focussed
  }

  lemma SameFocusRight(a: seq<Widget>, b: seq<Widget>, j: int, f: int, h: int, gives: bool)
    requires Tree(a) && Tree(b) && SameButDragging(a, b) && 0 <= j < |a| && 0 <= h < |a|
    ensures FocusRight(a, j, f, h, gives) <==> FocusRight(b, j, f, h, gives)
  {
    SameParentsWithin(a, b, j, h);
    if 0 <= f < |a| {
      SameParentsWithin(a, b, f, h);
    }
  }

  /** A container passes a mouse-down on; it lands where it would have without the change of dragging. */
  lemma ContainerDown(ws: seq<Widget>, i: int, x: int, y: int, button: int)
    returns (ws1: seq<Widget>, c: int, x1: int, y1: int)
    requires Tree(ws) && 0 <= i < |ws| && ws[i].kind != Plain
    ensures Tree(ws1) && SameButDragging(ws1, ws) && (c == -1 || i < c < |ws|)
    ensures c == -1 ==> MouseDown(ws, i, x, y, button) == ws1 && Focussing(ws, i, x, y) == -1
    ensures c != -1 ==>
              && MouseDown(ws, i, x, y, button) == MouseDown(ws1, c, x1, y1, button)
              && Hit(ws, i, x, y) == Hit(ws1, c, x1, y1) && Focussing(ws, i, x, y) == Focussing(ws1, c, x1, y1)
  {
    ws1 := Pressed(ws, i, button);
    c, x1, y1 := Next(ws1, i, x, y), x - ws1[i].x, y - ws1[i].y;
    PressedKeepsPlace(ws, i, button);
    PressedSameTarget(ws, i, x, y, button);
    ContainerMouseDown(ws, i, x, y, button);
  }

  /**
   A mouse-down that lands on a plain focussable widget puts the focus of every container around it on
   the child that holds it; no other focus changes.
   */
  lemma {:induction false} MouseDownLinks(ws: seq<Widget>, i: int, x: int, y: int, button: int, j: int)
    requires Tree(ws) && 0 <= i < |ws| && 0 <= j < |ws|
    ensures FocusRight(ws, j, MouseDown(ws, i, x, y, button)[j].focussed, Hit(ws, i, x, y), Focussing(ws, i, x, y) != -1)
    decreases |ws| - i
  {
    if ws[i].kind == Plain {
      PlainIsHit(ws, i, x, y);
      PlainClickLinks(ws, i, x, y, button, j);
    } else {
      var ws1, c, x1, y1 := ContainerDown(ws, i, x, y, button);
      if c != -1 {
        MouseDownLinks(ws1, c, x1, y1, button, j);
        SameFocusRight(ws1, ws, j, MouseDown(ws, i, x, y, button)[j].focussed, Hit(ws, i, x, y),
                       Focussing(ws, i, x, y) != -1);
      }
    }
  }

  // ----- which windows move -----

  /**
   Widget j is told of a pointer move: at each widget the children told are the one under the old place
   of the pointer and the one under its new place.
   */
  ghost predicate Reached(ws: seq<Widget>, i: int, ox: int, oy: int, nx: int, ny: int, j: int)
    requires Tree(ws) && 0 <= i < |ws|
    decreases |ws| - i
  {
    var a, b, n := ClickedChild(ws, i, ox, oy), ClickedChild(ws, i, nx, ny), |ws[i].children|;
    || j == i
    || (a < n && Reached(ws, Child(ws, i, a), ox, oy, nx, ny, j))
    || (b < n && Reached(ws, Child(ws, i, b), ox, oy, nx, ny, j))
  }

  lemma {:induction false} ReachedWithin(ws: seq<Widget>, i: int, ox: int, oy: int, nx: int, ny: int, j: int)
    requires Tree(ws) && 0 <= i < |ws| && Reached(ws, i, ox, oy, nx, ny, j)
    ensures 0 <= j < |ws| && Within(ws, i, j)
    decreases |ws| - i
  {
    var a, b, n := ClickedChild(ws, i, ox, oy), ClickedChild(ws, i, nx, ny), |ws[i].children|;
    if j != i {
      if a < n && Reached(ws, Child(ws, i, a), ox, oy, nx, ny, j) {
        ReachedWithin(ws, Child(ws, i, a), ox, oy, nx, ny, j);
        WithinParent(ws, i, a, j);
      } else {
        ReachedWithin(ws, Child(ws, i, b), ox, oy, nx, ny, j);
        WithinParent(ws, i, b, j);
      }
    }
  }

  /** Nothing in widget i is being dragged. */
  ghost predicate Still(ws: seq<Widget>, i: int)
    requires Tree(ws) && 0 <= i < |ws|
  {
    forall j :: 0 <= j < |ws| && Within(ws, i, j) && ws[j].kind == Window ==> !ws[j].dragging
  }

  ghost predicate ChildrenStill(ws: seq<Widget>, i: int)
    requires Tree(ws) && 0 <= i < |ws|
  {
    forall k :: 0 <= k < |ws[i].children| ==> Still(ws, Child(ws, i, k))
  }

  lemma NextIsChild(ws: seq<Widget>, i: int, x: int, y: int)
    requires Tree(ws) && 0 <= i < |ws| && ChildrenStill(ws, i)
    ensures Next(ws, i, x, y) != -1 ==> Still(ws, Next(ws, i, x, y))
  {
  }

  /** The points (oldX, oldY) and (newX, newY) as the children of widget i are asked about them. */
  ghost predicate Passed(ws: seq<Widget>, i: int, oldX: int, oldY: int, newX: int, newY: int,
                         x1: int, y1: int, x2: int, y2: int)
    requires 0 <= i < |ws|
  {
    x1 == oldX - ws[i].x && y1 == oldY - ws[i].y && x2 == newX - ws[i].x && y2 == newY - ws[i].y
  }

  lemma {:induction false} StillMove(ws: seq<Widget>, i: int, oldX: int, oldY: int, newX: int, newY: int)
    requires Tree(ws) && 0 <= i < |ws| && Still(ws, i)
    ensures MouseMove(ws, i, oldX, oldY, newX, newY) == ws
    decreases |ws| - i, 1
  {
    assert Within(ws, i, i);
    forall k, j | 0 <= k < |ws[i].children| && 0 <= j < |ws| && Within(ws, Child(ws, i, k), j)
      ensures Within(ws, i, j)
    {
      WithinParent(ws, i, k, j);
    }
    StillComposite(ws, i, oldX, oldY, newX, newY);
  }

  lemma {:induction false} StillComposite(ws: seq<Widget>, i: int, oldX: int, oldY: int, newX: int, newY: int)
    requires Tree(ws) && 0 <= i < |ws| && ChildrenStill(ws, i)
    ensures CompositeMove(ws, i, oldX, oldY, newX, newY) == ws
    decreases |ws| - i, 0
  {
    var x1, y1, x2, y2 := oldX - ws[i].x, oldY - ws[i].y, newX - ws[i].x, newY - ws[i].y;
    var first, second := Next(ws, i, oldX, oldY), Next(ws, i, newX, newY);
    NextIsChild(ws, i, oldX, oldY);
    NextIsChild(ws, i, newX, newY);
    FirstUnfolds(ws, i, oldX, oldY, newX, newY, x1, y1, x2, y2);
    if first != -1 {
      StillMove(ws, first, x1, y1, x2, y2);
    }
    SecondUnfolds(ws, ws, i, oldX, oldY, newX, newY, x1, y1, x2, y2);
    if second != -1 {
      StillMove(ws, second, x1, y1, x2, y2);
    }
  }

  lemma FirstUnfolds(ws: seq<Widget>, i: int, oldX: int, oldY: int, newX: int, newY: int,
                     x1: int, y1: int, x2: int, y2: int)
    requires Tree(ws) && 0 <= i < |ws| && Passed(ws, i, oldX, oldY, newX, newY, x1, y1, x2, y2)
    ensures var c := Next(ws, i, oldX, oldY);
            AfterFirst(ws, i, oldX, oldY, newX, newY) == if c == -1 then ws else MouseMove(ws, c, x1, y1, x2, y2)
  {
  }

  lemma SecondUnfolds(ws: seq<Widget>, ws1: seq<Widget>, i: int, oldX: int, oldY: int, newX: int, newY: int,
                      x1: int, y1: int, x2: int, y2: int)
    requires Tree(ws) && 0 <= i < |ws| && ws1 == AfterFirst(ws, i, oldX, oldY, newX, newY)
    requires Passed(ws, i, oldX, oldY, newX, newY, x1, y1, x2, y2)
    ensures var c := Next(ws1, i, newX, newY);
            CompositeMove(ws, i, oldX, oldY, newX, newY) ==
            if c == -1 || c == Next(ws, i, oldX, oldY) then ws1 else MouseMove(ws1, c, x1, y1, x2, y2)
  {
  }

  /** Window d is the only one being dragged. */
  ghost predicate OneDrag(ws: seq<Widget>, d: int) {
    && 0 <= d < |ws| && ws[d].kind == Window && ws[d].dragging
    && forall j :: 0 <= j < |ws| && j != d && ws[j].kind == Window ==> !ws[j].dragging
  }

  lemma StillAround(ws: seq<Widget>, d: int, i: int)
    requires Tree(ws) && OneDrag(ws, d) && 0 <= i < |ws| && !Within(ws, i, d)
    ensures Still(ws, i)
  {
  }

  lemma MovedKeepsDrag(ws: seq<Widget>, d: int, dx: int, dy: int)
    requires Tree(ws) && OneDrag(ws, d)
    ensures OneDrag(Moved(ws, d, dx, dy), d)
  {
  }

  lemma BelowStill(ws: seq<Widget>, d: int)
    requires Tree(ws) && OneDrag(ws, d)
    ensures ChildrenStill(ws, d)
  {
    forall k | 0 <= k < |ws[d].children|
      ensures Still(ws, Child(ws, d, k))
    {
      WithinBelow(ws, Child(ws, d, k), d);
      StillAround(ws, d, Child(ws, d, k));
    }
  }

  /** The point (x, y), in the coordinates in which widget i is asked, is the pixel (px, py). */
  ghost predicate At(ws: seq<Widget>, i: int, px: int, py: int, x: int, y: int)
    requires Tree(ws) && 0 <= i < |ws|
  {
    Local(ws, i, px, py).0 == x && Local(ws, i, px, py).1 == y
  }

  lemma AtChild(ws: seq<Widget>, i: int, k: nat, px: int, py: int, x: int, y: int)
    requires Tree(ws) && 0 <= i < |ws| && k < |ws[i].children| && At(ws, i, px, py, x, y)
    ensures At(ws, Child(ws, i, k), px, py, x - ws[i].x, y - ws[i].y)
  {
    ChildLocal(ws, i, k, px, py);
  }

  lemma NextAt(ws: seq<Widget>, i: int, px: int, py: int, x: int, y: int)
    requires Tree(ws) && 0 <= i < |ws| && At(ws, i, px, py, x, y)
    ensures var k := ClickedChild(ws, i, px, py);
            Next(ws, i, x, y) == if k == |ws[i].children| then -1 else Child(ws, i, k)
  {
    Descent(ws, i, px, py);
  }

  function AfterDrag(ws: seq<Widget>, d: int, reached: bool, dx: int, dy: int): seq<Widget>
    requires Tree(ws) && 0 <= d < |ws|
  {
    if reached then Moved(ws, d, dx, dy) else ws
  }

  /** At the dragged window itself: it moves, and what is in it does not. */
  lemma DraggedMoves(ws: seq<Widget>, d: int, oldX: int, oldY: int, newX: int, newY: int)
    requires Tree(ws) && OneDrag(ws, d)
    ensures MouseMove(ws, d, oldX, oldY, newX, newY) == Moved(ws, d, newX - oldX, newY - oldY)
  {
    var ws1 := Moved(ws, d, newX - oldX, newY - oldY);
    MovedKeepsDrag(ws, d, newX - oldX, newY - oldY);
    BelowStill(ws1, d);
    StillComposite(ws1, d, oldX, oldY, newX, newY);
  }

  /** The second loop of a container, when the first has moved the dragged window. */
  lemma SecondAfterDrag(ws: seq<Widget>, i: int, a: nat, d: int, dx: int, dy: int, c: int,
                        oldX: int, oldY: int, newX: int, newY: int)
    requires Tree(ws) && 0 <= i < |ws| && a < |ws[i].children| && OneDrag(ws, d) && Within(ws, Child(ws, i, a), d)
    requires c in ws[i].children && c != Child(ws, i, a)
    ensures 0 <= c < |ws| && MouseMove(Moved(ws, d, dx, dy), c, oldX, oldY, newX, newY) == Moved(ws, d, dx, dy)
  {
    var ws1 := Moved(ws, d, dx, dy);
    var k :| 0 <= k < |ws[i].children| && ws[i].children[k] == c;
    assert c == Child(ws, i, k);
    if Within(ws, c, d) {
      SiblingsDisjoint(ws, i, a, k, d);
    }
    SameParentsWithin(ws, ws1, c, d);
    MovedKeepsDrag(ws, d, dx, dy);
    StillAround(ws1, d, c);
    StillMove(ws1, c, oldX, oldY, newX, newY);
  }

  lemma NextInChildren(ws: seq<Widget>, i: int, x: int, y: int)
    requires Tree(ws) && 0 <= i < |ws|
    ensures Next(ws, i, x, y) == -1 || Next(ws, i, x, y) in ws[i].children
  {
  }

  /** When the first loop has moved the dragged window, the second changes nothing. */
  lemma SecondIdle(ws: seq<Widget>, i: int, a: nat, oldX: int, oldY: int, newX: int, newY: int, d: int)
    requires Tree(ws) && 0 <= i < |ws| && OneDrag(ws, d) && a < |ws[i].children|
    requires Next(ws, i, oldX, oldY) == Child(ws, i, a) && Within(ws, Child(ws, i, a), d)
    requires AfterFirst(ws, i, oldX, oldY, newX, newY) == Moved(ws, d, newX - oldX, newY - oldY)
    ensures CompositeMove(ws, i, oldX, oldY, newX, newY) == Moved(ws, d, newX - oldX, newY - oldY)
  {
    var ws1 := Moved(ws, d, newX - oldX, newY - oldY);
    NextInChildren(ws1, i, newX, newY);
    var x1, y1, x2, y2 := oldX - ws[i].x, oldY - ws[i].y, newX - ws[i].x, newY - ws[i].y;
    SecondUnfolds(ws, ws1, i, oldX, oldY, newX, newY, x1, y1, x2, y2);
    var second := Next(ws1, i, newX, newY);
    if second != -1 && second != Child(ws, i, a) {
      SecondAfterDrag(ws, i, a, d, newX - oldX, newY - oldY, second, x1, y1, x2, y2);
    }
  }

  /**
   A move of the pointer from the pixel (ox, oy) to (nx, ny) moves the window being dragged, once and by
   as much as the pointer, if it is reached, and changes nothing else in the tree, whatever its shape.
   */
  lemma {:induction false} MovesOnlyDragged(ws: seq<Widget>, i: int, oldX: int, oldY: int, newX: int, newY: int,
                                            ox: int, oy: int, nx: int, ny: int, d: int)
    requires Tree(ws) && 0 <= i < |ws| && OneDrag(ws, d)
    requires At(ws, i, ox, oy, oldX, oldY) && At(ws, i, nx, ny, newX, newY)
    ensures MouseMove(ws, i, oldX, oldY, newX, newY) ==
            AfterDrag(ws, d, Reached(ws, i, ox, oy, nx, ny, d), nx - ox, ny - oy)
    decreases |ws| - i, 2
  {
    assert WellLinked(ws, i);
    if i == d {
      DraggedMoves(ws, d, oldX, oldY, newX, newY);
    } else if ws[i].kind != Plain {
      MovesInChildren(ws, i, oldX, oldY, newX, newY, ox, oy, nx, ny, d);
    }
  }

  lemma {:induction false} MovesInChildren(ws: seq<Widget>, i: int, oldX: int, oldY: int, newX: int, newY: int,
                                           ox: int, oy: int, nx: int, ny: int, d: int)
    requires Tree(ws) && 0 <= i < |ws| && OneDrag(ws, d) && i != d
    requires At(ws, i, ox, oy, oldX, oldY) && At(ws, i, nx, ny, newX, newY)
    ensures CompositeMove(ws, i, oldX, oldY, newX, newY) ==
            AfterDrag(ws, d, Reached(ws, i, ox, oy, nx, ny, d), nx - ox, ny - oy)
    decreases |ws| - i, 1
  {
    var a, b, len := ClickedChild(ws, i, ox, oy), ClickedChild(ws, i, nx, ny), |ws[i].children|;
    var x1, y1, x2, y2 := oldX - ws[i].x, oldY - ws[i].y, newX - ws[i].x, newY - ws[i].y;
    FirstLoop(ws, i, oldX, oldY, newX, newY, ox, oy, x1, y1, x2, y2);
    if a < len {
      MovesInChild(ws, i, a, oldX, oldY, newX, newY, ox, oy, nx, ny, d, Child(ws, i, a), x1, y1, x2, y2);
    }
    if a < len && Reached(ws, Child(ws, i, a), ox, oy, nx, ny, d) {
      FirstReaches(ws, i, oldX, oldY, newX, newY, ox, oy, nx, ny, d);
    } else {
      SecondLoop(ws, i, oldX, oldY, newX, newY, ox, oy, nx, ny, x1, y1, x2, y2);
      if b < len {
        MovesInChild(ws, i, b, oldX, oldY, newX, newY, ox, oy, nx, ny, d, Child(ws, i, b), x1, y1, x2, y2);
      }
    }
  }

  /** The first loop tells the child under the old place. */
  lemma FirstLoop(ws: seq<Widget>, i: int, oldX: int, oldY: int, newX: int, newY: int, ox: int, oy: int,
                  x1: int, y1: int, x2: int, y2: int)
    requires Tree(ws) && 0 <= i < |ws| && At(ws, i, ox, oy, oldX, oldY)
    requires Passed(ws, i, oldX, oldY, newX, newY, x1, y1, x2, y2)
    ensures var a := ClickedChild(ws, i, ox, oy);
            AfterFirst(ws, i, oldX, oldY, newX, newY) ==
            if a == |ws[i].children| then ws else MouseMove(ws, Child(ws, i, a), x1, y1, x2, y2)
  {
    NextAt(ws, i, ox, oy, oldX, oldY);
    FirstUnfolds(ws, i, oldX, oldY, newX, newY, x1, y1, x2, y2);
  }

  lemma FirstReaches(ws: seq<Widget>, i: int, oldX: int, oldY: int, newX: int, newY: int,
                     ox: int, oy: int, nx: int, ny: int, d: int)
    requires Tree(ws) && 0 <= i < |ws| && OneDrag(ws, d)
    requires At(ws, i, ox, oy, oldX, oldY) && At(ws, i, nx, ny, newX, newY)
    requires ClickedChild(ws, i, ox, oy) < |ws[i].children|
    requires Reached(ws, Child(ws, i, ClickedChild(ws, i, ox, oy)), ox, oy, nx, ny, d)
    requires AfterFirst(ws, i, oldX, oldY, newX, newY) == Moved(ws, d, nx - ox, ny - oy)
    ensures CompositeMove(ws, i, oldX, oldY, newX, newY) == Moved(ws, d, nx - ox, ny - oy)
  {
    var a := ClickedChild(ws, i, ox, oy);
    NextAt(ws, i, ox, oy, oldX, oldY);
    ReachedWithin(ws, Child(ws, i, a), ox, oy, nx, ny, d);
    SecondIdle(ws, i, a, oldX, oldY, newX, newY, d);
  }

  /** When the first loop has changed nothing, the second tells the child under the new place, if it is another. */
  lemma SecondLoop(ws: seq<Widget>, i: int, oldX: int, oldY: int, newX: int, newY: int,
                   ox: int, oy: int, nx: int, ny: int, x1: int, y1: int, x2: int, y2: int)
    requires Tree(ws) && 0 <= i < |ws|
    requires At(ws, i, ox, oy, oldX, oldY) && At(ws, i, nx, ny, newX, newY)
    requires Passed(ws, i, oldX, oldY, newX, newY, x1, y1, x2, y2)
    requires AfterFirst(ws, i, oldX, oldY, newX, newY) == ws
    ensures var b := ClickedChild(ws, i, nx, ny);
            CompositeMove(ws, i, oldX, oldY, newX, newY) ==
            if b == |ws[i].children| || b == ClickedChild(ws, i, ox, oy) then ws
            else MouseMove(ws, Child(ws, i, b), x1, y1, x2, y2)
  {
    var a, b, len := ClickedChild(ws, i, ox, oy), ClickedChild(ws, i, nx, ny), |ws[i].children|;
    NextAt(ws, i, ox, oy, oldX, oldY);
    NextAt(ws, i, nx, ny, newX, newY);
    SecondUnfolds(ws, ws, i, oldX, oldY, newX, newY, x1, y1, x2, y2);
    if a < len && b < len && a != b {
      ChildrenDiffer(ws, i, a, b);
    }
  }

  /** The same for the k-th child c, which is asked about the points (x1, y1) and (x2, y2). */
  lemma {:induction false} MovesInChild(ws: seq<Widget>, i: int, k: nat, oldX: int, oldY: int, newX: int, newY: int,
                                        ox: int, oy: int, nx: int, ny: int, d: int,
                                        c: int, x1: int, y1: int, x2: int, y2: int)
    requires Tree(ws) && 0 <= i < |ws| && OneDrag(ws, d) && k < |ws[i].children| && c == Child(ws, i, k)
    requires At(ws, i, ox, oy, oldX, oldY) && At(ws, i, nx, ny, newX, newY)
    requires Passed(ws, i, oldX, oldY, newX, newY, x1, y1, x2, y2)
    ensures MouseMove(ws, c, x1, y1, x2, y2) == AfterDrag(ws, d, Reached(ws, c, ox, oy, nx, ny, d), nx - ox, ny - oy)
    decreases |ws| - i, 0
  {
    AtChild(ws, i, k, ox, oy, oldX, oldY);
    AtChild(ws, i, k, nx, ny, newX, newY);
    MovesOnlyDragged(ws, c, x1, y1, x2, y2, ox, oy, nx, ny, d);
  }

  lemma ChildrenDiffer(ws: seq<Widget>, i: int, a: nat, b: nat)
    requires Tree(ws) && 0 <= i < |ws| && a < |ws[i].children| && b < |ws[i].children| && a != b
    ensures Child(ws, i, a) != Child(ws, i, b)
  {
    assert WellLinked(ws, i);
  }
}
