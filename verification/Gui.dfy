/** The widgets themselves: drawing, mouse and keyboard handlers that update them in place. */
module Gui {
  import opened Machine
  import opened WidgetTree
  import opened WidgetEvents
  import opened DesktopModel
  import opened Vga

  /** The tree with a new childless widget as the last child of its parent. */
  ghost function Added(ws: seq<Widget>, parent: int, c: Widget): seq<Widget>
    requires 0 <= parent < |ws|
  {
    (ws + [c])[parent := ws[parent].(children := ws[parent].children + [|ws|])]
  }

  lemma AddedIsTree(ws: seq<Widget>, parent: int, c: Widget)
    requires Tree(ws) && 0 <= parent < |ws| && ws[parent].kind != Plain && |ws[parent].children| < MAX_CHILDREN
    requires c.parent == parent && c.children == [] && c.focussed == -1
    ensures Tree(Added(ws, parent, c))
  {
    var a := Added(ws, parent, c);
    forall i | 0 <= i < |a|
      ensures WellLinked(a, i)
    {
      if i < |ws| {
        assert WellLinked(ws, i);
        assert forall k :: 0 <= k < |ws[i].children| ==> a[i].children[k] == ws[i].children[k];
      } else {
        assert a[parent].children[|ws[parent].children|] == i;
      }
    }
  }

  /** Widgets nested in a desktop all lie on it. */
  lemma {:induction false} NestedOnDesktop(s: Screen, i: int)
    requires Usable(s) && Nested(s.ws) && 0 <= i < |s.ws|
    ensures var o, w := Origin(s.ws, i), s.ws[i];
            && 0 <= o.0 && 0 <= o.1 && 0 <= w.w && 0 <= w.h
            && o.0 + w.w <= s.ws[0].w && o.1 + w.h <= s.ws[0].h
    decreases i
  {
    var ws := s.ws;
    assert WellLinked(ws, i);
    if i > 0 {
      var p := ws[i].parent;
      NestedOnDesktop(s, p);
      var k :| 0 <= k < |ws[p].children| && ws[p].children[k] == i;
      assert Inside(ws[Child(ws, p, k)], ws[p]);
    }
  }

  /** So drawing fills exactly the rectangle of each of them. */
  lemma NestedFilledWhole(s: Screen, i: int, px: int, py: int)
    requires Usable(s) && Nested(s.ws) && 0 <= i < |s.ws|
    ensures OnOwn(s.ws, i, px, py) <==> OnWidget(s.ws, i, px, py)
  {
    NestedOnDesktop(s, i);
    PlottedWhole(s.ws, i, px, py);
  }

  /** The frame buffer after the whole tree has been drawn over the picture in `was`. */
  ghost predicate Drawn(ws: seq<Widget>, was: seq<int>, now: seq<int>)
    requires Tree(ws) && ws != [] && |was| == |now| == WIDTH * HEIGHT
  {
    forall px, py :: OnScreen(px, py) ==> Pixel(now, px, py) == Paint(ws, 0, px, py, Pixel(was, px, py))
  }

  lemma FrameShowsTop(ws: seq<Widget>, was: seq<int>, now: seq<int>)
    requires Tree(ws) && ws != [] && |was| == |now| == WIDTH * HEIGHT && Drawn(ws, was, now)
    ensures forall px, py :: OnScreen(px, py) ==>
              Pixel(now, px, py) ==
              if Covers(ws, 0, px, py) then ColorOf(ws[Top(ws, 0, px, py)]) else Pixel(was, px, py)
  {
    forall px, py | OnScreen(px, py)
      ensures Pixel(now, px, py) ==
              if Covers(ws, 0, px, py) then ColorOf(ws[Top(ws, 0, px, py)]) else Pixel(was, px, py)
    {
      DrawnIsTop(ws, 0, px, py, Pixel(was, px, py));
    }
  }

  lemma FrameShowsHit(ws: seq<Widget>, was: seq<int>, now: seq<int>)
    requires Tree(ws) && ws != [] && |was| == |now| == WIDTH * HEIGHT && Drawn(ws, was, now)
    requires Nested(ws) && ws[0].x == 0 && ws[0].y == 0 && 0 <= ws[0].w < TWO_32 && 0 <= ws[0].h < TWO_32
    ensures forall px, py :: OnScreen(px, py) ==>
              Pixel(now, px, py) ==
              if InRectangle(px, py, 0, 0, ws[0].w, ws[0].h) then ColorOf(ws[Hit(ws, 0, px, py)])
              else Pixel(was, px, py)
  {
    forall px, py | OnScreen(px, py)
      ensures Pixel(now, px, py) ==
              if InRectangle(px, py, 0, 0, ws[0].w, ws[0].h) then ColorOf(ws[Hit(ws, 0, px, py)])
              else Pixel(was, px, py)
    {
      RootDrawnIsHit(ws, px, py, Pixel(was, px, py));
    }
  }

  class Desktop {
    var widgets: seq<Widget>
    var mouseX: int
    var mouseY: int

    function View(): Screen
      reads this
    {
      Screen(widgets, mouseX, mouseY)
    }

    constructor (w: int, h: int, r: int, g: int, b: int)
      requires 0 < w < TWO_31 && 0 < h < TWO_31
      ensures Usable(View()) && PointerOnDesktop(View())
      ensures 0 <= w - 2 * mouseX < 2 && 0 <= h - 2 * mouseY < 2
      ensures widgets == [Widget(Composite, -1, 0, 0, w, h, r, g, b, true, [], -1, false)]
      ensures KeyTarget(widgets, 0) == -1
    {
      widgets := [Widget(Composite, -1, 0, 0, w, h, r, g, b, true, [], -1, false)];
      mouseX, mouseY := w / 2, h / 2;
      new;
      assert WellLinked(widgets, 0);
    }

    /** Constructs a widget and adds it to its parent; refused when the parent has 100 children. */
    method AddChild(kind: Kind, parent: int, x: int, y: int, w: int, h: int, r: int, g: int, b: int) returns (ok: bool)
      requires Tree(widgets) && 0 <= parent < |widgets| && widgets[parent].kind != Plain
      modifies this`widgets
      ensures Tree(widgets)
      ensures ok <==> |old(widgets)[parent].children| < 100
      ensures !ok ==> widgets == old(widgets)
      ensures ok ==>
                var n := |old(widgets)|;
                && |widgets| == n + 1
                && widgets[n] == Widget(kind, parent, x, y, w, h, r, g, b, true, [], -1, false)
                && widgets[parent] == old(widgets)[parent].(children := old(widgets)[parent].children + [n])
                && forall i :: 0 <= i < n && i != parent ==> widgets[i] == old(widgets)[i]
    {
      if |widgets[parent].children| >= MAX_CHILDREN {
        return false;
      }
      AddedIsTree(widgets, parent, Widget(kind, parent, x, y, w, h, r, g, b, true, [], -1, false));
      var child := |widgets|;
      widgets := widgets + [Widget(kind, parent, x, y, w, h, r, g, b, true, [], -1, false)];
      widgets := widgets[parent := widgets[parent].(children := widgets[parent].children + [child])];
      ok := true;
    }

    method ModelToScreen(i: int, x: int, y: int) returns (sx: int, sy: int)
      requires Tree(widgets) && 0 <= i < |widgets|
      ensures (sx, sy) == (x + Origin(widgets, i).0, y + Origin(widgets, i).1)
      decreases i
    {
      assert WellLinked(widgets, i);
      sx, sy := x, y;
      if widgets[i].parent != -1 {
        sx, sy := ModelToScreen(widgets[i].parent, sx, sy);
      }
      sx := sx + widgets[i].x;
      sy := sy + widgets[i].y;
    }

    /** Draws widget i, then its children from the last to the first. */
    method Draw(i: int, gc: VideoGraphicsArray)
      requires Tree(widgets) && 0 <= i < |widgets| && gc.Valid()
      modifies gc.frameBuffer
      ensures forall px, py :: OnScreen(px, py) ==>
                Pixel(gc.frameBuffer[..], px, py) ==
                Paint(widgets, i, px, py, Pixel(old(gc.frameBuffer[..]), px, py))
      decreases |widgets| - i
    {
      var sx, sy := ModelToScreen(i, 0, 0);
      gc.FillRectangle(sx, sy, widgets[i].w, widgets[i].h, widgets[i].r, widgets[i].g, widgets[i].b);
      ghost var own := gc.frameBuffer[..];
      var k := |widgets[i].children|;
      while k > 0
        invariant 0 <= k <= |widgets[i].children|
        invariant forall px, py :: OnScreen(px, py) ==>
                    Pixel(gc.frameBuffer[..], px, py) == PaintChildren(widgets, i, k, px, py, Pixel(own, px, py))
      {
        k := k - 1;
        Draw(Child(widgets, i, k), gc);
      }
    }

    /**
     Drawing the desktop shows at each pixel the first widget that covers it, and leaves the pixels
     that none covers; with nested widgets that is the widget a click there reaches.
     */
    method DrawAll(gc: VideoGraphicsArray)
      requires Usable(View()) && gc.Valid()
      modifies gc.frameBuffer
      ensures forall px, py :: OnScreen(px, py) ==>
                Pixel(gc.frameBuffer[..], px, py) ==
                if Covers(widgets, 0, px, py) then ColorOf(widgets[Top(widgets, 0, px, py)])
                else Pixel(old(gc.frameBuffer[..]), px, py)
      ensures Nested(widgets) ==> forall px, py :: OnScreen(px, py) ==>
                Pixel(gc.frameBuffer[..], px, py) ==
                if InRectangle(px, py, 0, 0, widgets[0].w, widgets[0].h) then ColorOf(widgets[Hit(widgets, 0, px, py)])
                else Pixel(old(gc.frameBuffer[..]), px, py)
    {
      Draw(0, gc);
      FrameShowsTop(widgets, old(gc.frameBuffer[..]), gc.frameBuffer[..]);
      if Nested(widgets) {
        FrameShowsHit(widgets, old(gc.frameBuffer[..]), gc.frameBuffer[..]);
      }
    }

    /** The loop shared by all mouse handlers: the first child at the point, or -1. */
    method ChildAt(i: int, x: int, y: int) returns (c: int)
      requires Tree(widgets) && 0 <= i < |widgets|
      ensures c == Next(widgets, i, x, y)
    {
      var dx, dy := x - widgets[i].x, y - widgets[i].y;
      var k := 0;
      while k < |widgets[i].children|
        invariant 0 <= k <= |widgets[i].children|
        invariant FirstHit(widgets, i, k, dx, dy) == FirstHit(widgets, i, 0, dx, dy)
      {
        if ContainsCoordinate(widgets[Child(widgets, i, k)], dx, dy) {
          return Child(widgets, i, k);
        }
        k := k + 1;
      }
      return -1;
    }

    method TakeFocus(i: int, arg: int)
      requires Tree(widgets) && 0 <= i < |widgets|
      requires if widgets[i].kind == Plain then arg == i else arg in widgets[i].children
      modifies this`widgets
      ensures widgets == GetFocus(old(widgets), i, arg)
      decreases i
    {
      assert WellLinked(widgets, i);
      if widgets[i].kind == Plain {
        if widgets[i].parent != -1 {
          TakeFocus(widgets[i].parent, arg);
        }
      } else {
        FocusOnChild(widgets, i, arg);
        widgets := widgets[i := widgets[i].(focussed := arg)];
        if widgets[i].parent != -1 {
          TakeFocus(widgets[i].parent, i);
        }
      }
    }

    /** Returns the widget at which the event ends. */
    method PassMouseDown(i: int, x: int, y: int, button: int) returns (reached: int)
      requires Tree(widgets) && 0 <= i < |widgets|
      modifies this`widgets
      ensures widgets == MouseDown(old(widgets), i, x, y, button)
      ensures reached == Hit(old(widgets), i, x, y)
      decreases |widgets| - i, 1
    {
      if widgets[i].kind == Plain {
        PlainIsHit(widgets, i, x, y);
        reached := i;
        if widgets[i].focussable {
          TakeFocus(i, i);
        }
      } else {
        PressedSameTarget(widgets, i, x, y, button);
        Press(i, button);
        reached := CompositeMouseDown(i, x, y, button);
      }
    }

    /** What a window adds to a mouse-down. */
    method Press(i: int, button: int)
      requires Tree(widgets) && 0 <= i < |widgets|
      modifies this`widgets
      ensures widgets == Pressed(old(widgets), i, button)
    {
      if widgets[i].kind == Window {
        widgets := widgets[i := widgets[i].(dragging := button == 1)];
      }
    }

    /** What a window adds to a mouse-up. */
    method Unpress(i: int)
      requires Tree(widgets) && 0 <= i < |widgets|
      modifies this`widgets
      ensures widgets == Released(old(widgets), i)
    {
      if widgets[i].kind == Window {
        widgets := widgets[i := widgets[i].(dragging := false)];
      }
    }

    method CompositeMouseDown(i: int, x: int, y: int, button: int) returns (reached: int)
      requires Tree(widgets) && 0 <= i < |widgets|
      modifies this`widgets
      ensures widgets == CompositeDown(old(widgets), i, x, y, button)
      ensures reached == Hit(old(widgets), i, x, y)
      decreases |widgets| - i, 0
    {
      reached := i;
      var c := ChildAt(i, x, y);
      if c != -1 {
        reached := PassMouseDown(c, x - widgets[i].x, y - widgets[i].y, button);
      }
    }

    method PassMouseUp(i: int, x: int, y: int)
      requires Tree(widgets) && 0 <= i < |widgets|
      modifies this`widgets
      ensures widgets == MouseUp(old(widgets), i, x, y)
      decreases |widgets| - i, 1
    {
      if widgets[i].kind != Plain {
        Unpress(i);
        CompositeMouseUp(i, x, y);
      }
    }

    method CompositeMouseUp(i: int, x: int, y: int)
      requires Tree(widgets) && 0 <= i < |widgets|
      modifies this`widgets
      ensures widgets == CompositeUp(old(widgets), i, x, y)
      decreases |widgets| - i, 0
    {
      var c := ChildAt(i, x, y);
      if c != -1 {
        PassMouseUp(c, x - widgets[i].x, y - widgets[i].y);
      }
    }

    method PassMouseMove(i: int, oldX: int, oldY: int, newX: int, newY: int)
      requires Tree(widgets) && 0 <= i < |widgets|
      modifies this`widgets
      ensures widgets == MouseMove(old(widgets), i, oldX, oldY, newX, newY)
      decreases |widgets| - i, 2
    {
      if widgets[i].kind == Plain {
        return;
      }
      if widgets[i].kind == Window && widgets[i].dragging {
        widgets := Moved(widgets, i, newX - oldX, newY - oldY);
      }
      var told := CompositeMouseMove(i, oldX, oldY, newX, newY);
    }

    /** Returns the children told of the move. */
    method CompositeMouseMove(i: int, oldX: int, oldY: int, newX: int, newY: int) returns (told: seq<int>)
      requires Tree(widgets) && 0 <= i < |widgets|
      modifies this`widgets
      ensures widgets == CompositeMove(old(widgets), i, oldX, oldY, newX, newY)
      ensures told == Recipients(old(widgets), i, oldX, oldY, newX, newY)
      decreases |widgets| - i, 1
    {
      var firstChild := TellFirst(i, oldX, oldY, newX, newY);
      var second := TellSecond(i, firstChild, oldX, oldY, newX, newY);
      told := (if firstChild == -1 then [] else [firstChild])
      + (if second == -1 || second == firstChild then [] else [second]);
    }

    /** The second loop of `CompositeWidget::OnMouseMove`. */
    method TellSecond(i: int, firstChild: int, oldX: int, oldY: int, newX: int, newY: int) returns (second: int)
      requires Tree(widgets) && 0 <= i < |widgets|
      modifies this`widgets
      ensures second == Next(old(widgets), i, newX, newY)
      ensures widgets == var ws := old(widgets);
                         if second == -1 || second == firstChild then ws
                         else MouseMove(ws, second, oldX - ws[i].x, oldY - ws[i].y, newX - ws[i].x, newY - ws[i].y)
      decreases |widgets| - i, 0
    {
      second := ChildAt(i, newX, newY);
      if second != -1 && firstChild != second {
        var x, y := widgets[i].x, widgets[i].y;
        PassMouseMove(second, oldX - x, oldY - y, newX - x, newY - y);
      }
    }

    /** The first loop of `CompositeWidget::OnMouseMove`. */
    method TellFirst(i: int, oldX: int, oldY: int, newX: int, newY: int) returns (firstChild: int)
      requires Tree(widgets) && 0 <= i < |widgets|
      modifies this`widgets
      ensures widgets == AfterFirst(old(widgets), i, oldX, oldY, newX, newY)
      ensures firstChild == Next(old(widgets), i, oldX, oldY)
      decreases |widgets| - i, 0
    {
      firstChild := ChildAt(i, oldX, oldY);
      if firstChild != -1 {
        var x, y := widgets[i].x, widgets[i].y;
        PassMouseMove(firstChild, oldX - x, oldY - y, newX - x, newY - y);
      }
    }

    /** Passes a key down the focus path; returns the plain widget that gets it, or -1. */
    method OnKeyDown(i: int) returns (receiver: int)
      requires Tree(widgets) && 0 <= i < |widgets|
      ensures receiver == KeyTarget(widgets, i)
      decreases |widgets| - i
    {
      assert WellLinked(widgets, i);
      if widgets[i].kind == Plain {
        return i;
      }
      if widgets[i].focussed == -1 {
        return -1;
      }
      receiver := OnKeyDown(widgets[i].focussed);
    }

    method OnMouseDown(button: int) returns (reached: int)
      requires Usable(View())
      modifies this`widgets
      ensures Usable(View()) && widgets == MouseDown(old(widgets), 0, mouseX, mouseY, button)
      ensures reached == Hit(old(widgets), 0, mouseX, mouseY)
    {
      MouseDownKeepsPlace(widgets, 0, mouseX, mouseY, button);
      reached := PassMouseDown(0, mouseX, mouseY, button);
    }

    method OnMouseUp()
      requires Usable(View())
      modifies this`widgets
      ensures Usable(View()) && widgets == MouseUp(old(widgets), 0, mouseX, mouseY)
    {
      PassMouseUp(0, mouseX, mouseY);
    }

    /** One coordinate of `OnMouseMove`. */
    method Clamped(at: int, delta: int, size: int) returns (p: int)
      ensures p == Pointer(at, delta, size)
    {
      p := I32(U32(at + Quotient(delta, 4)));
      if p < 0 {
        p := 0;
      }
      if p >= size {
        p := size - 1;
      }
    }

    method OnMouseMove(dx: int, dy: int) returns (told: seq<int>)
      requires Usable(View())
      modifies this
      ensures View() == PointerMove(old(View()), dx, dy) && told == Told(old(View()), dx, dy)
    {
      var newMouseX := Clamped(mouseX, dx, widgets[0].w);
      var newMouseY := Clamped(mouseY, dy, widgets[0].h);
      told := CompositeMouseMove(0, mouseX, mouseY, newMouseX, newMouseY);
      mouseX := newMouseX;
      mouseY := newMouseY;
    }
  }
}
