/** What mouse and keyboard events do to the widget tree, and where keys end up over whole runs. */
module WidgetEvents {
  import opened WidgetTree

  // ----- focus -----

  /** Same kinds, links and focus: all that decides where a key goes. */
  ghost predicate SameFocus(a: seq<Widget>, b: seq<Widget>) {
    |a| == |b| && forall i :: 0 <= i < |a| ==>
      a[i].kind == b[i].kind && a[i].parent == b[i].parent && a[i].children == b[i].children && a[i].focussed == b[i].focussed
  }

  /** Same shape and place: all that decides where a click goes. */
  ghost predicate SamePlace(a: seq<Widget>, b: seq<Widget>) {
    |a| == |b| && forall i :: 0 <= i < |a| ==> a[i] == b[i].(focussed := a[i].focussed, dragging := a[i].dragging)
  }

  ghost predicate SameButDragging(a: seq<Widget>, b: seq<Widget>) {
    |a| == |b| && forall i :: 0 <= i < |a| ==> a[i] == b[i].(dragging := a[i].dragging)
  }

  lemma SameFocusSameTree(a: seq<Widget>, b: seq<Widget>)
    requires Tree(a) && SameFocus(a, b)
    ensures Tree(b)
  {
    forall i | 0 <= i < |b|
      ensures WellLinked(b, i)
    {
      assert WellLinked(a, i);
    }
  }

  lemma FocusOnChild(ws: seq<Widget>, i: int, c: int)
    requires Tree(ws) && 0 <= i < |ws| && ws[i].kind != Plain && c in ws[i].children
    ensures i < c < |ws| && ws[c].parent == i
    ensures Tree(ws[i := ws[i].(focussed := c)])
  {
    assert WellLinked(ws, i);
    var a := ws[i := ws[i].(focussed := c)];
    forall j | 0 <= j < |a|
      ensures WellLinked(a, j)
    {
      assert WellLinked(ws, j);
    }
  }

  /** `GetFocus(arg)` called on widget i: every widget up to the root puts its focus on the path. */
  function GetFocus(ws: seq<Widget>, i: int, arg: int): (r: seq<Widget>)
    requires Tree(ws) && 0 <= i < |ws|
    requires if ws[i].kind == Plain then arg == i else arg in ws[i].children
    ensures Tree(r) && |r| == |ws|
    decreases i
  {
    assert WellLinked(ws, i);
    var p := ws[i].parent;
    if ws[i].kind == Plain then
      if p == -1 then ws else GetFocus(ws, p, arg)
    else
      FocusOnChild(ws, i, arg);
      var ws1 := ws[i := ws[i].(focussed := arg)];
      if p == -1 then ws1 else GetFocus(ws1, p, i)
  }

  /** `GetFocus` changes focus alone. */
  lemma {:induction false} GetFocusKeepsRest(ws: seq<Widget>, i: int, arg: int)
    requires Tree(ws) && 0 <= i < |ws|
    requires if ws[i].kind == Plain then arg == i else arg in ws[i].children
    ensures forall j :: 0 <= j < |ws| ==> GetFocus(ws, i, arg)[j] == ws[j].(focussed := GetFocus(ws, i, arg)[j].focussed)
    decreases i
  {
    assert WellLinked(ws, i);
    var p := ws[i].parent;
    if p != -1 {
      if ws[i].kind == Plain {
        GetFocusKeepsRest(ws, p, arg);
      } else {
        FocusOnChild(ws, i, arg);
        GetFocusKeepsRest(ws[i := ws[i].(focussed := arg)], p, i);
      }
    }
  }

  /** The plain widget that receives a key given to widget i, or -1. */
  function KeyTarget(ws: seq<Widget>, i: int): int
    requires Tree(ws) && 0 <= i < |ws|
    decreases |ws| - i
  {
    assert WellLinked(ws, i);
    if ws[i].kind == Plain then i
    else if ws[i].focussed == -1 then -1
    else KeyTarget(ws, ws[i].focussed)
  }

  lemma {:induction false} KeyTargetLocal(a: seq<Widget>, b: seq<Widget>, i: int)
    requires Tree(a) && Tree(b) && |a| == |b| && 0 <= i < |a|
    requires forall j :: i <= j < |a| ==> a[j].kind == b[j].kind && a[j].focussed == b[j].focussed
    ensures KeyTarget(a, i) == KeyTarget(b, i)
    decreases |a| - i
  {
    assert WellLinked(a, i);
    if a[i].kind != Plain && a[i].focussed != -1 {
      KeyTargetLocal(a, b, a[i].focussed);
    }
  }

  /** After `GetFocus` keys given to the root go where keys given to the new focus go. */
  lemma {:induction false} KeysFollowFocus(ws: seq<Widget>, i: int, arg: int)
    requires Tree(ws) && 0 <= i < arg < |ws| && ws[i].kind != Plain && arg in ws[i].children
    ensures KeyTarget(GetFocus(ws, i, arg), 0) == KeyTarget(ws, arg)
    decreases i
  {
    FocusOnChild(ws, i, arg);
    assert WellLinked(ws, i);
    var ws1 := ws[i := ws[i].(focussed := arg)];
    KeyTargetLocal(ws, ws1, arg);
    if i > 0 {
      KeysFollowFocus(ws1, ws[i].parent, i);
    }
  }

  // ----- mouse buttons -----

  lemma SamePlaceSameHit(a: seq<Widget>, b: seq<Widget>, i: int, k: nat, x: int, y: int)
    requires Tree(a) && Tree(b) && SamePlace(a, b) && 0 <= i < |a| && k <= |a[i].children|
    ensures FirstHit(a, i, k, x, y) == FirstHit(b, i, k, x, y)
    decreases |a[i].children| - k
  {
    if k < |a[i].children| && !ContainsCoordinate(a[Child(a, i, k)], x, y) {
      SamePlaceSameHit(a, b, i, k + 1, x, y);
    }
  }

  lemma SamePlaceSameNext(a: seq<Widget>, b: seq<Widget>, i: int, x: int, y: int)
    requires Tree(a) && Tree(b) && SamePlace(a, b) && 0 <= i < |a|
    ensures a[i].x == b[i].x && a[i].y == b[i].y && Next(a, i, x, y) == Next(b, i, x, y)
  {
    SamePlaceSameHit(a, b, i, 0, x - a[i].x, y - a[i].y);
  }

  lemma {:induction false} SamePlaceSameTarget(a: seq<Widget>, b: seq<Widget>, i: int, x: int, y: int)
    requires Tree(a) && Tree(b) && SamePlace(a, b) && 0 <= i < |a|
    ensures Hit(a, i, x, y) == Hit(b, i, x, y)
    decreases |a| - i
  {
    SamePlaceSameNext(a, b, i, x, y);
    if Next(a, i, x, y) != -1 {
      SamePlaceSameTarget(a, b, Next(a, i, x, y), x - a[i].x, y - a[i].y);
    }
  }

  function SetDragging(ws: seq<Widget>, i: int, on: bool): (r: seq<Widget>)
    requires Tree(ws) && 0 <= i < |ws|
    ensures Tree(r) && |r| == |ws|
  {
    var r := ws[i := ws[i].(dragging := on)];
    SameFocusSameTree(ws, r);
    r
  }

  /** What a container does with a mouse-down before passing it on. */
  function Pressed(ws: seq<Widget>, i: int, button: int): (r: seq<Widget>)
    requires Tree(ws) && 0 <= i < |ws|
    ensures Tree(r) && |r| == |ws|
  {
    if ws[i].kind == Window then SetDragging(ws, i, button == 1) else ws
  }

  function MouseDown(ws: seq<Widget>, i: int, x: int, y: int, button: int): (r: seq<Widget>)
    requires Tree(ws) && 0 <= i < |ws|
    ensures Tree(r) && |r| == |ws|
    decreases |ws| - i, 1
  {
    if ws[i].kind == Plain then (if ws[i].focussable then GetFocus(ws, i, i) else ws)
    else CompositeDown(Pressed(ws, i, button), i, x, y, button)
  }

  function CompositeDown(ws: seq<Widget>, i: int, x: int, y: int, button: int): (r: seq<Widget>)
    requires Tree(ws) && 0 <= i < |ws|
    ensures Tree(r) && |r| == |ws|
    decreases |ws| - i, 0
  {
    var c := Next(ws, i, x, y);
    if c == -1 then ws else MouseDown(ws, c, x - ws[i].x, y - ws[i].y, button)
  }

  function Released(ws: seq<Widget>, i: int): (r: seq<Widget>)
    requires Tree(ws) && 0 <= i < |ws|
    ensures Tree(r) && |r| == |ws|
  {
    if ws[i].kind == Window then SetDragging(ws, i, false) else ws
  }

  /** A mouse-up ends the drag of every window on its way and changes nothing else. */
  function MouseUp(ws: seq<Widget>, i: int, x: int, y: int): (r: seq<Widget>)
    requires Tree(ws) && 0 <= i < |ws|
    ensures Tree(r) && SameButDragging(r, ws)
    ensures forall j :: 0 <= j < i ==> r[j] == ws[j]
    ensures ws[i].kind == Window ==> !r[i].dragging
    decreases |ws| - i, 1
  {
    if ws[i].kind == Plain then ws else CompositeUp(Released(ws, i), i, x, y)
  }

  function CompositeUp(ws: seq<Widget>, i: int, x: int, y: int): (r: seq<Widget>)
    requires Tree(ws) && 0 <= i < |ws|
    ensures Tree(r) && SameButDragging(r, ws)
    ensures forall j :: 0 <= j <= i ==> r[j] == ws[j]
    decreases |ws| - i, 0
  {
    var c := Next(ws, i, x, y);
    if c == -1 then ws else MouseUp(ws, c, x - ws[i].x, y - ws[i].y)
  }

  /** The plain widget a mouse-down gives the focus to, or -1. */
  function Focussing(ws: seq<Widget>, i: int, x: int, y: int): int
    requires Tree(ws) && 0 <= i < |ws|
  {
    var h := Hit(ws, i, x, y);
    if ws[h].kind == Plain && ws[h].focussable then h else -1
  }

  lemma PlainIsHit(ws: seq<Widget>, i: int, x: int, y: int)
    requires Tree(ws) && 0 <= i < |ws| && ws[i].kind == Plain
    ensures Hit(ws, i, x, y) == i
  {
    assert WellLinked(ws, i);
  }

  lemma PressedSameTarget(ws: seq<Widget>, i: int, x: int, y: int, button: int)
    requires Tree(ws) && 0 <= i < |ws|
    ensures Hit(Pressed(ws, i, button), i, x, y) == Hit(ws, i, x, y)
  {
    SamePlaceSameTarget(Pressed(ws, i, button), ws, i, x, y);
  }

  lemma PlainMouseDownFocus(ws: seq<Widget>, i: int, x: int, y: int, button: int)
    requires Tree(ws) && 0 < i < |ws| && ws[i].kind == Plain
    ensures KeyTarget(MouseDown(ws, i, x, y, button), 0) ==
            if Focussing(ws, i, x, y) == -1 then KeyTarget(ws, 0) else Focussing(ws, i, x, y)
  {
    assert WellLinked(ws, i);
    PlainIsHit(ws, i, x, y);
    if ws[i].focussable {
      KeysFollowFocus(ws, ws[i].parent, i);
    }
  }

  lemma DraggingIrrelevant(a: seq<Widget>, b: seq<Widget>, i: int, x: int, y: int)
    requires Tree(a) && Tree(b) && SameButDragging(b, a) && 0 <= i < |a|
    ensures KeyTarget(a, 0) == KeyTarget(b, 0) && Focussing(a, i, x, y) == Focussing(b, i, x, y)
  {
    KeyTargetLocal(a, b, 0);
    SamePlaceSameTarget(a, b, i, x, y);
  }

  lemma PressedKeepsPlace(ws: seq<Widget>, i: int, button: int)
    requires Tree(ws) && 0 <= i < |ws|
    ensures SamePlace(Pressed(ws, i, button), ws)
    ensures forall j :: 0 <= j < |ws| && j != i ==> Pressed(ws, i, button)[j].dragging == ws[j].dragging
    ensures ws[i].kind == Window ==> Pressed(ws, i, button)[i].dragging == (button == 1)
  {
  }

  /** A mouse-down changes focus and dragging only, and dragging only from widget i on. */
  lemma {:induction false} MouseDownKeepsPlace(ws: seq<Widget>, i: int, x: int, y: int, button: int)
    requires Tree(ws) && 0 <= i < |ws|
    ensures SamePlace(MouseDown(ws, i, x, y, button), ws)
    ensures forall j :: 0 <= j < i ==> MouseDown(ws, i, x, y, button)[j].dragging == ws[j].dragging
    ensures ws[i].kind == Window ==> MouseDown(ws, i, x, y, button)[i].dragging == (button == 1)
    decreases |ws| - i
  {
    if ws[i].kind == Plain {
      if ws[i].focussable {
        GetFocusKeepsRest(ws, i, i);
      }
    } else {
      MouseDownDescends(ws, i, x, y, button);
      PressedKeepsPlace(ws, i, button);
      var ws1 := Pressed(ws, i, button);
      if Next(ws1, i, x, y) != -1 {
        MouseDownKeepsPlace(ws1, Next(ws1, i, x, y), x - ws1[i].x, y - ws1[i].y, button);
      }
    }
  }

  lemma MouseDownDescends(ws: seq<Widget>, i: int, x: int, y: int, button: int)
    requires Tree(ws) && 0 <= i < |ws| && ws[i].kind != Plain
    ensures var ws1 := Pressed(ws, i, button);
            var c := Next(ws1, i, x, y);
            if c == -1 then
              MouseDown(ws, i, x, y, button) == ws1 && Focussing(ws1, i, x, y) == -1
            else
              && MouseDown(ws, i, x, y, button) == MouseDown(ws1, c, x - ws1[i].x, y - ws1[i].y, button)
              && Focussing(ws1, i, x, y) == Focussing(ws1, c, x - ws1[i].x, y - ws1[i].y)
  {
  }

  lemma ContainerMouseDown(ws: seq<Widget>, i: int, x: int, y: int, button: int)
    requires Tree(ws) && 0 <= i < |ws| && ws[i].kind != Plain
    ensures var ws1 := Pressed(ws, i, button);
            var c := Next(ws1, i, x, y);
            && KeyTarget(ws1, 0) == KeyTarget(ws, 0)
            && (if c == -1 then
                  MouseDown(ws, i, x, y, button) == ws1 && Focussing(ws, i, x, y) == -1
                else
                  && MouseDown(ws, i, x, y, button) == MouseDown(ws1, c, x - ws1[i].x, y - ws1[i].y, button)
                  && Focussing(ws, i, x, y) == Focussing(ws1, c, x - ws1[i].x, y - ws1[i].y))
  {
    DraggingIrrelevant(ws, Pressed(ws, i, button), i, x, y);
    MouseDownDescends(ws, i, x, y, button);
  }

  /** A mouse-down moves the focus to the plain widget it lands on and else leaves it. */
  lemma {:induction false} MouseDownFocus(ws: seq<Widget>, i: int, x: int, y: int, button: int)
    requires Tree(ws) && 0 <= i < |ws| && ws[0].kind != Plain
    ensures KeyTarget(MouseDown(ws, i, x, y, button), 0) ==
            if Focussing(ws, i, x, y) == -1 then KeyTarget(ws, 0) else Focussing(ws, i, x, y)
    decreases |ws| - i
  {
    if ws[i].kind == Plain {
      PlainMouseDownFocus(ws, i, x, y, button);
    } else {
      ContainerMouseDown(ws, i, x, y, button);
      var ws1 := Pressed(ws, i, button);
      if Next(ws1, i, x, y) != -1 {
        MouseDownFocus(ws1, Next(ws1, i, x, y), x - ws1[i].x, y - ws1[i].y, button);
      }
    }
  }

  // ----- mouse moves -----

  function Moved(ws: seq<Widget>, i: int, dx: int, dy: int): (r: seq<Widget>)
    requires Tree(ws) && 0 <= i < |ws|
    ensures Tree(r) && SameFocus(r, ws)
    ensures forall j :: 0 <= j < |ws| && j != i ==> r[j] == ws[j]
  {
    var r := ws[i := ws[i].(x := ws[i].x + dx, y := ws[i].y + dy)];
    SameFocusSameTree(ws, r);
    r
  }

  function MouseMove(ws: seq<Widget>, i: int, oldX: int, oldY: int, newX: int, newY: int): (r: seq<Widget>)
    requires Tree(ws) && 0 <= i < |ws|
    ensures Tree(r) && SameFocus(r, ws)
    ensures forall j :: 0 <= j < i ==> r[j] == ws[j]
    ensures r[i] == if ws[i].kind == Window && ws[i].dragging
                    then ws[i].(x := ws[i].x + (newX - oldX), y := ws[i].y + (newY - oldY)) else ws[i]
    decreases |ws| - i, 2
  {
    if ws[i].kind == Plain then ws
    else
      var ws1 := if ws[i].kind == Window && ws[i].dragging then Moved(ws, i, newX - oldX, newY - oldY) else ws;
      CompositeMove(ws1, i, oldX, oldY, newX, newY)
  }

  /** The tree after the child under the old position has been told of the move. */
  function AfterFirst(ws: seq<Widget>, i: int, oldX: int, oldY: int, newX: int, newY: int): (r: seq<Widget>)
    requires Tree(ws) && 0 <= i < |ws|
    ensures Tree(r) && SameFocus(r, ws)
    ensures forall j :: 0 <= j <= i ==> r[j] == ws[j]
    decreases |ws| - i, 0
  {
    var x, y, c := ws[i].x, ws[i].y, Next(ws, i, oldX, oldY);
    if c == -1 then ws else MouseMove(ws, c, oldX - x, oldY - y, newX - x, newY - y)
  }

  /** A container tells the child under the old position, then the child now under the new one. */
  function CompositeMove(ws: seq<Widget>, i: int, oldX: int, oldY: int, newX: int, newY: int): (r: seq<Widget>)
    requires Tree(ws) && 0 <= i < |ws|
    ensures Tree(r) && SameFocus(r, ws)
    ensures forall j :: 0 <= j <= i ==> r[j] == ws[j]
    decreases |ws| - i, 1
  {
    var x, y, ws1 := ws[i].x, ws[i].y, AfterFirst(ws, i, oldX, oldY, newX, newY);
    var second := Next(ws1, i, newX, newY);
    if second == -1 || second == Next(ws, i, oldX, oldY) then ws1
    else MouseMove(ws1, second, oldX - x, oldY - y, newX - x, newY - y)
  }

  /** The children of widget i that are told of a move, in order. */
  function Recipients(ws: seq<Widget>, i: int, oldX: int, oldY: int, newX: int, newY: int): seq<int>
    requires Tree(ws) && 0 <= i < |ws|
  {
    var first := Next(ws, i, oldX, oldY);
    var second := Next(AfterFirst(ws, i, oldX, oldY, newX, newY), i, newX, newY);
    (if first == -1 then [] else [first]) + (if second == -1 || second == first then [] else [second])
  }

  // ----- where keys go, over whole runs -----

  datatype Event =
    | Down(x: int, y: int, button: int)
    | Up(x: int, y: int)
    | Move(oldX: int, oldY: int, newX: int, newY: int)

  function Handle(ws: seq<Widget>, e: Event): (r: seq<Widget>)
    requires Tree(ws) && ws != []
    ensures Tree(r) && |r| == |ws|
  {
    match e
    case Down(x, y, button) => MouseDown(ws, 0, x, y, button)
    case Up(x, y) => MouseUp(ws, 0, x, y)
    case Move(oldX, oldY, newX, newY) => MouseMove(ws, 0, oldX, oldY, newX, newY)
  }

  function HandleAll(ws: seq<Widget>, es: seq<Event>): (r: seq<Widget>)
    requires Tree(ws) && ws != []
    ensures Tree(r) && |r| == |ws|
    decreases |es|
  {
    if es == [] then ws else HandleAll(Handle(ws, es[0]), es[1..])
  }

  function Clicked(ws: seq<Widget>, e: Event): int
    requires Tree(ws) && ws != []
  {
    if e.Down? then Focussing(ws, 0, e.x, e.y) else -1
  }

  lemma EventFocus(ws: seq<Widget>, e: Event)
    requires Tree(ws) && ws != [] && ws[0].kind != Plain
    ensures Handle(ws, e)[0].kind == ws[0].kind
    ensures KeyTarget(Handle(ws, e), 0) == if Clicked(ws, e) == -1 then KeyTarget(ws, 0) else Clicked(ws, e)
  {
    match e
    case Down(x, y, button) =>
      MouseDownKeepsPlace(ws, 0, x, y, button);
      MouseDownFocus(ws, 0, x, y, button);
    case Up(x, y) =>
      KeyTargetLocal(ws, MouseUp(ws, 0, x, y), 0);
    case Move(oldX, oldY, newX, newY) => KeyTargetLocal(ws, MouseMove(ws, 0, oldX, oldY, newX, newY), 0);
  }

  /** The plain widget hit by the last mouse-down that landed on one; `before` if there was none. */
  function LastClicked(ws: seq<Widget>, es: seq<Event>, before: int): int
    requires Tree(ws) && ws != []
    decreases |es|
  {
    if es == [] then before
    else
      LastClicked(Handle(ws, es[0]), es[1..], if Clicked(ws, es[0]) == -1 then before else Clicked(ws, es[0]))
  }

  /** Keys given to the root reach the last plain widget clicked on, whatever moved in between. */
  lemma {:induction false} KeysReachLastClicked(ws: seq<Widget>, es: seq<Event>)
    requires Tree(ws) && ws != [] && ws[0].kind != Plain
    ensures KeyTarget(HandleAll(ws, es), 0) == LastClicked(ws, es, KeyTarget(ws, 0))
    decreases |es|
  {
    if es != [] {
      EventFocus(ws, es[0]);
      KeysReachLastClicked(Handle(ws, es[0]), es[1..]);
    }
  }
}
