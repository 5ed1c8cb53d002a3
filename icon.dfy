/**
 * The pixel buffer `drawIcon` paints before handing it to `createPNG`: a
 * square of `size * size` RGBA pixels, row by row, four bytes per pixel.
 */
module Icon {
  import opened ByteCodec
  import opened Arith

  /** Dark blue #1e3a5f, opaque. */
  const BACKGROUND: seq<byte> := [30, 58, 95, 255]

  /** White, opaque: every channel of a drawn pixel is 255. */
  const FOREGROUND: byte := 255

  /** Byte `k` belongs to the pixel at column `x`, row `y`, and that pixel is on the canvas. */
  predicate InPixel(size: nat, x: int, y: int, k: int) {
    0 <= x < size && 0 <= y < size && (y * size + x) * 4 <= k < (y * size + x) * 4 + 4
  }

  /** The column of the pixel byte `k` belongs to. */
  function Column(size: nat, k: nat): int
    requires size > 0
  {
    (k / 4) % size
  }

  /** The row of the pixel byte `k` belongs to. */
  function Row(size: nat, k: nat): int
    requires size > 0
  {
    (k / 4) / size
  }

  /** For a byte of the buffer, being in pixel `(x, y)` is having that column and that row. */
  lemma PixelIff(size: nat, x: int, y: int, k: nat)
    requires k < size * size * 4
    ensures size > 0
    ensures InPixel(size, x, y, k) <==> Column(size, k) == x && Row(size, k) == y
  {
    var p := k / 4;
    if InPixel(size, x, y, k) {
      DivModUnique(k, 4, y * size + x, k - (y * size + x) * 4);
      DivModUnique(p, size, y, x);
    }
    if Column(size, k) == x && Row(size, k) == y {
      assert p == y * size + x;
      assert p < size * size by {
        DivModUnique(k, 4, p, k % 4);
      }
      QuotientBelow(p, size);
    }
  }

  /** A quotient by `d` of a number below `d * d` is below `d`. */
  lemma QuotientBelow(p: nat, d: nat)
    requires 0 < d && p < d * d
    ensures p / d < d
  {
    var q := p / d;
    assert q * d <= p;
    MulMonotone(d, q, d);
  }

  /** Byte `k` is in a pixel of the rectangle from `(x1, y1)` to `(x2, y2)`, corners included. */
  predicate InRect(size: nat, x1: int, y1: int, x2: int, y2: int, k: nat)
    requires size > 0
  {
    x1 <= Column(size, k) <= x2 && y1 <= Row(size, k) <= y2
  }

  class Canvas {
    const size: nat
    const pixels: array<byte>

    /** The buffer holds exactly the `size * size` pixels. */
    predicate Valid() {
      pixels.Length == size * size * 4
    }

    /** `Buffer.alloc(size * size * 4)`: every byte starts at 0. */
    constructor (size: nat)
      ensures this.size == size && Valid()
      ensures fresh(pixels)
      ensures forall k :: 0 <= k < pixels.Length ==> pixels[k] == 0
    {
      this.size := size;
      pixels := new byte[size * size * 4](_ => 0);
    }

    /** The background loop: every pixel becomes the background colour. */
    method FillBackground()
      requires Valid()
      modifies pixels
      ensures forall k :: 0 <= k < pixels.Length ==> pixels[k] == BACKGROUND[k % 4]
    {
      for i := 0 to size * size
        invariant forall k :: 0 <= k < i * 4 ==> pixels[k] == BACKGROUND[k % 4]
      {
        DivModUnique(i * 4 + 1, 4, i, 1);
        DivModUnique(i * 4 + 2, 4, i, 2);
        DivModUnique(i * 4 + 3, 4, i, 3);
        pixels[i * 4] := BACKGROUND[0];
        pixels[i * 4 + 1] := BACKGROUND[1];
        pixels[i * 4 + 2] := BACKGROUND[2];
        pixels[i * 4 + 3] := BACKGROUND[3];
      }
    }

    /**
     * `setPixel(x, y)`: paints the four bytes at `(y * size + x) * 4` white
     * when the pixel is on the canvas, and does nothing otherwise.
     */
    method SetPixel(x: int, y: int)
      requires Valid()
      modifies pixels
      ensures forall k :: 0 <= k < pixels.Length ==>
        pixels[k] == if InPixel(size, x, y, k) then FOREGROUND else old(pixels[k])
    {
      if x >= 0 && x < size && y >= 0 && y < size {
        var i := (y * size + x) * 4;
        assert i + 4 <= pixels.Length by {
          assert y * size + x + 1 <= size * size by {
            MulMonotone(1, size - y, size);
            assert (size - y) * size == size * size - y * size;
          }
        }
        pixels[i] := FOREGROUND;
        pixels[i + 1] := FOREGROUND;
        pixels[i + 2] := FOREGROUND;
        pixels[i + 3] := FOREGROUND;
      }
    }

    /**
     * `drawRect(x1, y1, x2, y2)`: paints white the pixels of the canvas in
     * the rectangle, corners included, and leaves every other byte alone.
     */
    method DrawRect(x1: int, y1: int, x2: int, y2: int)
      requires Valid()
      modifies pixels
      ensures forall k :: 0 <= k < pixels.Length ==>
        pixels[k] == if InRect(size, x1, y1, x2, y2, k) then FOREGROUND else old(pixels[k])
    {
      if size == 0 {
        return;
      }
      var y := y1;
      while y <= y2
        invariant y1 <= y && (y == y1 || y <= y2 + 1)
        invariant forall k :: 0 <= k < pixels.Length ==>
          pixels[k] == if InRect(size, x1, y1, x2, y - 1, k) then FOREGROUND else old(pixels[k])
        decreases y2 - y
      {
        DrawRow(x1, x2, y);
        y := y + 1;
      }
    }

    /** The inner loop of `drawRect`: paints the pixels of row `y` from column `x1` to `x2`. */
    method DrawRow(x1: int, x2: int, y: int)
      requires Valid() && size > 0
      modifies pixels
      ensures forall k :: 0 <= k < pixels.Length ==>
        pixels[k] == if x1 <= Column(size, k) <= x2 && Row(size, k) == y then FOREGROUND else old(pixels[k])
    {
      var x := x1;
      while x <= x2
        invariant x1 <= x && (x == x1 || x <= x2 + 1)
        invariant forall k :: 0 <= k < pixels.Length ==>
          pixels[k] == if x1 <= Column(size, k) < x && Row(size, k) == y then FOREGROUND else old(pixels[k])
        decreases x2 - x
      {
        SetPixel(x, y);
        forall k | 0 <= k < pixels.Length
          ensures InPixel(size, x, y, k) <==> Column(size, k) == x && Row(size, k) == y
        {
          PixelIff(size, x, y, k);
        }
        x := x + 1;
      }
    }
  }
}
