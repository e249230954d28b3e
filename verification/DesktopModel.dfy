/** The desktop as a state machine over mouse packets: clamping the pointer and dragging a window. */
module DesktopModel {
  import opened Machine
  import opened WidgetTree
  import opened WidgetEvents
  import opened WidgetPaths

  /** The desktop is widget 0 of the tree; it keeps the pointer position itself. */
  datatype Screen = Screen(ws: seq<Widget>, mouseX: int, mouseY: int)

  ghost predicate Usable(s: Screen) {
    && Tree(s.ws) && s.ws != [] && s.ws[0].kind == Composite && s.ws[0].x == 0 && s.ws[0].y == 0
    && 0 < s.ws[0].w < TWO_31 && 0 < s.ws[0].h < TWO_31
  }

  /** Division by a positive constant as C++ does it, towards zero. */
  function Quotient(x: int, d: int): int
    requires 0 < d
  {
    if x >= 0 then x / d else -((-x) / d)
  }

  /** The new pointer coordinate: quarter speed, 32-bit wrap, then clamped to [0, size). */
  function Pointer(at: int, delta: int, size: int): int {
    var p := I32(U32(at + Quotient(delta, 4)));
    var q := if p < 0 then 0 else p;
    if q >= size then size - 1 else q
  }

  function PointerMove(s: Screen, dx: int, dy: int): (r: Screen)
    requires Usable(s)
    ensures Usable(r) && r.ws[0] == s.ws[0]
    ensures r.mouseX == Pointer(s.mouseX, dx, s.ws[0].w) && r.mouseY == Pointer(s.mouseY, dy, s.ws[0].h)
  {
    var nx, ny := Pointer(s.mouseX, dx, s.ws[0].w), Pointer(s.mouseY, dy, s.ws[0].h);
    Screen(CompositeMove(s.ws, 0, s.mouseX, s.mouseY, nx, ny), nx, ny)
  }

  /** The children of the desktop told of a pointer move. */
  function Told(s: Screen, dx: int, dy: int): seq<int>
    requires Usable(s)
  {
    Recipients(s.ws, 0, s.mouseX, s.mouseY, Pointer(s.mouseX, dx, s.ws[0].w), Pointer(s.mouseY, dy, s.ws[0].h))
  }

  ghost predicate PointerOnDesktop(s: Screen)
    requires Usable(s)
  {
    0 <= s.mouseX < s.ws[0].w && 0 <= s.mouseY < s.ws[0].h
  }

  /** The pointer never leaves the desktop, whatever offsets arrive. */
  lemma PointerStaysOnDesktop(s: Screen, dx: int, dy: int)
    requires Usable(s)
    ensures PointerOnDesktop(PointerMove(s, dx, dy))
  {
  }

  // ----- dragging -----

  /** The first child of the desktop is a window being dragged, with the pointer on it. */
  ghost predicate Dragged(s: Screen, c: int)
    requires Usable(s)
  {
    && 0 < |s.ws[0].children| && c == Child(s.ws, 0, 0)
    && s.ws[c].kind == Window && s.ws[c].dragging && ContainsCoordinate(s.ws[c], s.mouseX, s.mouseY)
  }

  /** Pressing the left button on the front window starts a drag. */
  lemma PressStartsDrag(s: Screen)
    requires Usable(s) && 0 < |s.ws[0].children|
    requires var c := Child(s.ws, 0, 0); s.ws[c].kind == Window && ContainsCoordinate(s.ws[c], s.mouseX, s.mouseY)
    ensures var r := s.(ws := MouseDown(s.ws, 0, s.mouseX, s.mouseY, 1));
            Usable(r) && Dragged(r, Child(s.ws, 0, 0))
  {
    var c := Child(s.ws, 0, 0);
    assert Next(s.ws, 0, s.mouseX, s.mouseY) == c;
    MouseDownKeepsPlace(s.ws, 0, s.mouseX, s.mouseY, 1);
    MouseDownKeepsPlace(s.ws, c, s.mouseX, s.mouseY, 1);
  }

  /** Releasing a button over the dragged window ends the drag. */
  lemma ReleaseEndsDrag(s: Screen, c: int)
    requires Usable(s) && Dragged(s, c)
    ensures var r := s.(ws := MouseUp(s.ws, 0, s.mouseX, s.mouseY));
            Usable(r) && !r.ws[c].dragging
  {
    assert Next(s.ws, 0, s.mouseX, s.mouseY) == c;
  }

  /**
   One move of a dragged window: it alone is told, once, it moves by as much as the pointer
   does, and it is still being dragged.
   */
  lemma DragStep(s: Screen, c: int, dx: int, dy: int)
    requires Usable(s) && Dragged(s, c)
    ensures var r := PointerMove(s, dx, dy);
            && Dragged(r, c) && PointerOnDesktop(r) && Told(s, dx, dy) == [c]
            && r.ws[c].x - r.mouseX == s.ws[c].x - s.mouseX
            && r.ws[c].y - r.mouseY == s.ws[c].y - s.mouseY
            && forall i :: 0 <= i < c ==> r.ws[i] == s.ws[i]
  {
    PointerStaysOnDesktop(s, dx, dy);
    var nx, ny := Pointer(s.mouseX, dx, s.ws[0].w), Pointer(s.mouseY, dy, s.ws[0].h);
    assert FirstHit(s.ws, 0, 0, s.mouseX, s.mouseY) == 0;
    var ws1 := AfterFirst(s.ws, 0, s.mouseX, s.mouseY, nx, ny);
    assert ContainsCoordinate(ws1[c], nx, ny);
    assert FirstHit(ws1, 0, 0, nx, ny) == 0;
  }

  function PointerMoves(s: Screen, moves: seq<(int, int)>): (r: Screen)
    requires Usable(s)
    ensures Usable(r)
    decreases |moves|
  {
    if moves == [] then s else PointerMoves(PointerMove(s, moves[0].0, moves[0].1), moves[1..])
  }

  ghost predicate AlwaysTold(s: Screen, c: int, moves: seq<(int, int)>)
    requires Usable(s)
    decreases |moves|
  {
    moves == [] ||
    (Told(s, moves[0].0, moves[0].1) == [c] && AlwaysTold(PointerMove(s, moves[0].0, moves[0].1), c, moves[1..]))
  }

  /** Over any sequence of moves a dragged window keeps its place under the pointer. */
  lemma {:induction false} DragConservation(s: Screen, c: int, moves: seq<(int, int)>)
    requires Usable(s) && Dragged(s, c) && PointerOnDesktop(s)
    ensures var r := PointerMoves(s, moves);
            && Dragged(r, c) && PointerOnDesktop(r) && AlwaysTold(s, c, moves)
            && r.ws[c].x - r.mouseX == s.ws[c].x - s.mouseX
            && r.ws[c].y - r.mouseY == s.ws[c].y - s.mouseY
    decreases |moves|
  {
    if moves != [] {
      DragStep(s, c, moves[0].0, moves[0].1);
      DragConservation(PointerMove(s, moves[0].0, moves[0].1), c, moves[1..]);
    }
  }

  // ----- how far the pointer goes -----

  /** q is a quarter of x, rounded towards zero. */
  ghost predicate QuarterOf(x: int, q: int) {
    (x >= 0 ==> 0 <= x - 4 * q < 4) && (x <= 0 ==> 0 <= 4 * q - x < 4)
  }

  /**
   Where one coordinate lands that is moved by q on a desktop of this size: there, if that is on the
   desktop, else on the edge; a sum that leaves the 32-bit range lands on the lower edge.
   */
  ghost predicate Lands(at: int, q: int, size: int, to: int) {
    && (0 <= at + q < size ==> to == at + q)
    && (at + q < 0 ==> to == 0)
    && (size <= at + q < 0x8000_0000 ==> to == size - 1)
    && (0x8000_0000 <= at + q ==> to == 0)
  }

  lemma CoordinateLands(at: int, delta: int, q: int, size: int)
    requires 0 <= at < size < TWO_31 && IsI32(delta) && QuarterOf(delta, q)
    ensures Lands(at, q, size, Pointer(at, delta, size))
  {
    assert Quotient(delta, 4) == q;
    var p := at + q;
    assert I32(U32(p)) == if p < TWO_31 then p else p - TWO_32;
  }

  /** Each mouse move moves the pointer by a quarter of each offset, rounded towards zero, within the desktop. */
  lemma PointerLands(s: Screen, dx: int, dy: int, qx: int, qy: int)
    requires Usable(s) && PointerOnDesktop(s) && IsI32(dx) && IsI32(dy) && QuarterOf(dx, qx) && QuarterOf(dy, qy)
    ensures var r := PointerMove(s, dx, dy);
            Lands(s.mouseX, qx, s.ws[0].w, r.mouseX) && Lands(s.mouseY, qy, s.ws[0].h, r.mouseY)
  {
    CoordinateLands(s.mouseX, dx, qx, s.ws[0].w);
    CoordinateLands(s.mouseY, dy, qy, s.ws[0].h);
  }

  ghost predicate Quarters(moves: seq<(int, int)>, qs: seq<(int, int)>) {
    |moves| == |qs| && forall k :: 0 <= k < |moves| ==>
      && IsI32(moves[k].0) && IsI32(moves[k].1)
      && QuarterOf(moves[k].0, qs[k].0) && QuarterOf(moves[k].1, qs[k].1)
  }

  /** Moved by each of the quarters in turn, the point (x, y) stays on a desktop of w by h. */
  ghost predicate StaysInside(x: int, y: int, qs: seq<(int, int)>, w: int, h: int)
    decreases |qs|
  {
    qs == [] ||
    (0 <= x + qs[0].0 < w && 0 <= y + qs[0].1 < h && StaysInside(x + qs[0].0, y + qs[0].1, qs[1..], w, h))
  }

  function Sum(qs: seq<(int, int)>): (int, int) {
    if qs == [] then (0, 0) else (qs[0].0 + Sum(qs[1..]).0, qs[0].1 + Sum(qs[1..]).1)
  }

  /** Over moves that reach no edge the pointer moves by the sum of the quarters. */
  lemma {:induction false} PointerSum(s: Screen, moves: seq<(int, int)>, qs: seq<(int, int)>)
    requires Usable(s) && PointerOnDesktop(s) && Quarters(moves, qs)
    requires StaysInside(s.mouseX, s.mouseY, qs, s.ws[0].w, s.ws[0].h)
    ensures var r := PointerMoves(s, moves);
            r.mouseX == s.mouseX + Sum(qs).0 && r.mouseY == s.mouseY + Sum(qs).1
    decreases |moves|
  {
    if moves != [] {
      assert QuarterOf(moves[0].0, qs[0].0) && QuarterOf(moves[0].1, qs[0].1);
      PointerLands(s, moves[0].0, moves[0].1, qs[0].0, qs[0].1);
      assert Quarters(moves[1..], qs[1..]) by {
        forall k | 0 <= k < |moves[1..]|
          ensures moves[1..][k] == moves[k + 1] && qs[1..][k] == qs[k + 1]
        {
        }
      }
      PointerSum(PointerMove(s, moves[0].0, moves[0].1), moves[1..], qs[1..]);
    }
  }

  /** And so does a window that is being dragged. */
  lemma DragSum(s: Screen, c: int, moves: seq<(int, int)>, qs: seq<(int, int)>)
    requires Usable(s) && Dragged(s, c) && PointerOnDesktop(s) && Quarters(moves, qs)
    requires StaysInside(s.mouseX, s.mouseY, qs, s.ws[0].w, s.ws[0].h)
    ensures var r := PointerMoves(s, moves);
            Dragged(r, c) && r.ws[c].x == s.ws[c].x + Sum(qs).0 && r.ws[c].y == s.ws[c].y + Sum(qs).1
  {
    DragConservation(s, c, moves);
    PointerSum(s, moves, qs);
  }

  lemma MoveIsComposite(s: Screen, dx: int, dy: int) returns (ox: int, oy: int, nx: int, ny: int)
    requires Usable(s)
    ensures var r := PointerMove(s, dx, dy);
            && ox == s.mouseX && oy == s.mouseY && nx == r.mouseX && ny == r.mouseY
            && r.ws == CompositeMove(s.ws, 0, ox, oy, nx, ny)
  {
    var r := PointerMove(s, dx, dy);
    ox, oy, nx, ny := s.mouseX, s.mouseY, r.mouseX, r.mouseY;
  }

  lemma AtRoot(ws: seq<Widget>, px: int, py: int)
    requires Tree(ws) && ws != []
    ensures At(ws, 0, px, py, px, py)
  {
    assert WellLinked(ws, 0);
  }

  /**
   On a desktop of any shape on which one window is being dragged, a pointer move moves that window by
   as much as the pointer if the move is passed down to it, and changes nothing else.
   */
  lemma PointerMovesOneWindow(s: Screen, dx: int, dy: int, d: int)
    requires Usable(s) && OneDrag(s.ws, d)
    ensures var r := PointerMove(s, dx, dy);
            && r.ws == AfterDrag(s.ws, d, Reached(s.ws, 0, s.mouseX, s.mouseY, r.mouseX, r.mouseY, d),
                                 r.mouseX - s.mouseX, r.mouseY - s.mouseY)
  {
    var ox, oy, nx, ny := MoveIsComposite(s, dx, dy);
    AtRoot(s.ws, ox, oy);
    AtRoot(s.ws, nx, ny);
    MovesInChildren(s.ws, 0, ox, oy, nx, ny, ox, oy, nx, ny, d);
  }
}
