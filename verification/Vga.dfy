/** Painting on the 320 x 200 frame buffer. */
module Vga {
  import opened Machine
  import opened WidgetTree

  const WIDTH := 320
  const HEIGHT := 200

  predicate OnScreen(x: int, y: int) {
    0 <= x < WIDTH && 0 <= y < HEIGHT
  }

  function Pixel(frame: seq<int>, x: int, y: int): int
    requires |frame| == WIDTH * HEIGHT && OnScreen(x, y)
  {
    frame[WIDTH * y + x]
  }

  ghost predicate IsBit(b: int) {
    b == 0 || b == 1
  }

  /**
   An index has two bits for each of red, green and blue, of which one adds 0xA8 and the other 0x57 to
   that part of the colour.
   */
  ghost predicate PaletteEntry(index: int, r: int, g: int, b: int, bright: (int, int, int), dim: (int, int, int)) {
    && IsBit(bright.0) && IsBit(bright.1) && IsBit(bright.2) && IsBit(dim.0) && IsBit(dim.1) && IsBit(dim.2)
    && index == 4 * bright.0 + 2 * bright.1 + bright.2 + 32 * dim.0 + 16 * dim.1 + 8 * dim.2
    && r == bright.0 * 0xA8 + dim.0 * 0x57 && g == bright.1 * 0xA8 + dim.1 * 0x57 && b == bright.2 * 0xA8 + dim.2 * 0x57
  }

  /** Black, blue, green, red and white are shown as they are; every other colour is shown black. */
  lemma ColorsShown(r: int, g: int, b: int) returns (bright: (int, int, int), dim: (int, int, int))
    ensures if (r, g, b) in {(0, 0, 0), (0, 0, 0xA8), (0, 0xA8, 0), (0xA8, 0, 0), (0xFF, 0xFF, 0xFF)} then
              PaletteEntry(ColorIndex(r, g, b), r, g, b, bright, dim)
            else
              PaletteEntry(ColorIndex(r, g, b), 0, 0, 0, bright, dim)
  {
    bright, dim := (0, 0, 0), (0, 0, 0);
    if r == g == b == 0xFF {
      bright, dim := (1, 1, 1), (1, 1, 1);
    } else if (r, g, b) in {(0, 0, 0xA8), (0, 0xA8, 0), (0xA8, 0, 0)} {
      bright := (r / 0xA8, g / 0xA8, b / 0xA8);
    }
  }

  class VideoGraphicsArray {
    const frameBuffer: array<int>

    predicate Valid() {
      frameBuffer.Length == WIDTH * HEIGHT
    }

    constructor ()
      ensures Valid() && fresh(frameBuffer)
    {
      frameBuffer := new int[WIDTH * HEIGHT](_ => 0);
    }

    /** Clips to the screen and changes at most the one pixel. */
    method PutPixel(x: int, y: int, r: int, g: int, b: int)
      requires Valid()
      modifies frameBuffer
      ensures forall px, py :: OnScreen(px, py) ==>
                Pixel(frameBuffer[..], px, py) ==
                if px == x && py == y then ColorIndex(r, g, b) else Pixel(old(frameBuffer[..]), px, py)
    {
      if x < 0 || WIDTH <= x || y < 0 || HEIGHT <= y {
        return;
      }
      frameBuffer[WIDTH * y + x] := ColorIndex(r, g, b);
    }

    /**
     The source takes all four as `uint32_t`, counts in `int32_t` and compares as `uint32_t`.
     The counters wrap at 32 bits.
     */
    method FillRectangle(x: int, y: int, w: int, h: int, r: int, g: int, b: int)
      requires Valid()
      modifies frameBuffer
      ensures forall px, py :: OnScreen(px, py) ==>
                Pixel(frameBuffer[..], px, py) ==
                if Filled(px, py, x, y, w, h) then ColorIndex(r, g, b) else Pixel(old(frameBuffer[..]), px, py)
    {
      var row := I32(y);
      while U32(row) < U32(y + h)
        invariant IsI32(row) && U32(y) <= U32(row) && (U32(row) == U32(y) || U32(row) <= U32(y + h))
        invariant forall px, py :: OnScreen(px, py) ==>
                    Pixel(frameBuffer[..], px, py) ==
                    if U32(x) <= px < U32(x + w) && U32(y) <= py < U32(row) then ColorIndex(r, g, b)
                    else Pixel(old(frameBuffer[..]), px, py)
        decreases U32(y + h) - U32(row)
      {
        NextCount(row);
        FillRow(x, row, w, r, g, b);
        row := I32(row + 1);
      }
    }

    /** The inner loop. */
    method FillRow(x: int, row: int, w: int, r: int, g: int, b: int)
      requires Valid() && IsI32(row)
      modifies frameBuffer
      ensures forall px, py :: OnScreen(px, py) ==>
                Pixel(frameBuffer[..], px, py) ==
                if U32(x) <= px < U32(x + w) && py == U32(row) then ColorIndex(r, g, b)
                else Pixel(old(frameBuffer[..]), px, py)
    {
      var column := I32(x);
      NextCount(row);
      while U32(column) < U32(x + w)
        invariant IsI32(column) && U32(x) <= U32(column) && (U32(column) == U32(x) || U32(column) <= U32(x + w))
        invariant forall px, py :: OnScreen(px, py) ==>
                    Pixel(frameBuffer[..], px, py) ==
                    if U32(x) <= px < U32(column) && py == U32(row) then ColorIndex(r, g, b)
                    else Pixel(old(frameBuffer[..]), px, py)
        decreases U32(x + w) - U32(column)
      {
        NextCount(column);
        PutPixel(column, row, r, g, b);
        column := I32(column + 1);
      }
    }
  }

  /** A counter in its two readings; counting one up moves both, below the largest `uint32_t`. */
  lemma NextCount(n: int)
    requires IsI32(n)
    ensures U32(n) == if n < 0 then n + TWO_32 else n
    ensures U32(n) + 1 < TWO_32 ==> U32(I32(n + 1)) == U32(n) + 1 && IsI32(I32(n + 1))
  {
  }
}
