/**
 * The Playdate window framebuffer update: the truecolor window surface is
 * dithered, line by line and pixel by pixel, into the LCD's packed
 * 1-bit-per-pixel frame buffer.
 *
 * The three display constants are a `Geometry`: `rows` is LCD_ROWS,
 * `bytesPerLine` is BYTES_PER_LINE (the loop reads 8 pixels per byte) and
 * `rowSize` is LCD_ROWSIZE (the stride of the frame buffer in bytes).
 * The luma of a pixel is a parameter `luma`; Bt709Luma is the exact-arithmetic
 * reading of the weights the source uses.
 */
module Framebuffer {

  import opened Arithmetic
  import opened Dither
  import opened BitPacking

  datatype Option<T> = None | Some(value: T)

  /** One pixel's colour channels as SDL_GetRGB reports them; alpha plays no part. */
  datatype Rgb = Rgb(r: Byte, g: Byte, b: Byte)

  const Black: Rgb := Rgb(0, 0, 0)
  const White: Rgb := Rgb(255, 255, 255)

  /** An ARGB8888 window surface: `w*h` pixels, row-major, `w` pixels per row. */
  datatype Surface = Surface(w: nat, h: nat, pixels: seq<Rgb>) {
    predicate Valid() {
      |pixels| == w * h
    }
  }

  /** LCD_ROWS, BYTES_PER_LINE and LCD_ROWSIZE. */
  datatype Geometry = Geometry(rows: nat, bytesPerLine: nat, rowSize: nat) {
    predicate Valid() {
      bytesPerLine <= rowSize
    }

    /** The number of pixels the loop reads on each line. */
    function Columns(): nat {
      8 * bytesPerLine
    }
  }

  function Min3(a: int, b: int, c: int): int {
    if a <= b && a <= c then a else if b <= c then b else c
  }

  function Max3(a: int, b: int, c: int): int {
    if a >= b && a >= c then a else if b >= c then b else c
  }

  /**
   * The relative luma with the weights 0.212671, 0.715160 and 0.072169, truncated,
   * in exact arithmetic. The weights add up to exactly 1, so the luma lies between
   * the smallest and the largest channel, and a gray pixel keeps its level: black
   * is 0 and white is 255.
   */
  function Bt709Luma(c: Rgb): (l: Byte)
    ensures Min3(c.r, c.g, c.b) <= l <= Max3(c.r, c.g, c.b)
    ensures c.r == c.g == c.b ==> l == c.r
  {
    var m := Min3(c.r, c.g, c.b);
    var n := Max3(c.r, c.g, c.b);
    var sum := 212671 * c.r + 715160 * c.g + 72169 * c.b;
    assert 1000000 * m <= sum <= 1000000 * n;
    MulLeIffLeDiv(m, sum, 1000000);
    DivMonotone(sum, 1000000 * n, 1000000);
    sum / 1000000
  }

  /** The read `pixels[y*w + x]` stays inside a `w*h` buffer whenever `x < w` and `y < h`. */
  lemma PixelIndexInBounds(x: nat, y: nat, w: nat, h: nat)
    requires x < w && y < h
    ensures y * w + x < w * h
  {
    RowInFrame(y, w, h);
    assert w * h == h * w;
  }

  /** The pixel at column `x` of line `y`. */
  function PixelAt(s: Surface, x: nat, y: nat): Rgb
    requires s.Valid() && x < s.w && y < s.h
  {
    PixelIndexInBounds(x, y, s.w, s.h);
    s.pixels[y * s.w + x]
  }

  /**
   * What the loop assumes of its inputs and never checks: the surface has at
   * least BYTES_PER_LINE*8 columns and LCD_ROWS lines, BYTES_PER_LINE does not
   * exceed LCD_ROWSIZE, and the frame holds LCD_ROWS rows of LCD_ROWSIZE bytes.
   */
  predicate Fits(s: Surface, g: Geometry, frameLength: nat) {
    s.Valid() && g.Valid() && g.Columns() <= s.w && g.rows <= s.h
    && g.rows * g.rowSize <= frameLength
  }

  /** The dithering decision for the pixel at (x, y). */
  predicate PixelBit(s: Surface, luma: Rgb -> Byte, x: nat, y: nat)
    requires s.Valid() && x < s.w && y < s.h
  {
    Decide(luma(PixelAt(s, x, y)), x, y)
  }

  /** The decisions for the eight pixels `8*byte .. 8*byte + 7` of a line. */
  function LineBits(s: Surface, luma: Rgb -> Byte, line: nat, byte: nat): (bits: seq<bool>)
    requires s.Valid() && 8 * byte + 8 <= s.w && line < s.h
    ensures |bits| == 8
  {
    seq(8, bit requires 0 <= bit < 8 => PixelBit(s, luma, 8 * byte + bit, line))
  }

  lemma LineBitsAt(s: Surface, luma: Rgb -> Byte, y: nat, byte: nat, k: nat)
    requires s.Valid() && 8 * byte + 8 <= s.w && y < s.h && k < 8
    ensures LineBits(s, luma, y, byte)[k] == Decide(luma(PixelAt(s, 8 * byte + k, y)), 8 * byte + k, y)
  {
    assert LineBits(s, luma, y, byte)[k] == PixelBit(s, luma, 8 * byte + k, y);
  }

  /** Is frame offset `i` one of the BYTES_PER_LINE bytes of one of the LCD_ROWS rows? */
  predicate Written(g: Geometry, i: nat) {
    0 < g.rowSize && i < g.rows * g.rowSize && i % g.rowSize < g.bytesPerLine
  }

  /** The byte at offset `i` of the converted frame. */
  function FrameByte(f: seq<bv8>, s: Surface, g: Geometry, luma: Rgb -> Byte, i: nat): bv8
    requires Fits(s, g, |f|) && i < |f|
  {
    if Written(g, i) then
      RowOf(i, g.rowSize, g.rows);
      PackMsbFirst(LineBits(s, luma, i / g.rowSize, i % g.rowSize))
    else
      f[i]
  }

  /** The frame buffer `f` once every line of the surface has been converted into it. */
  function Converted(f: seq<bv8>, s: Surface, g: Geometry, luma: Rgb -> Byte): (r: seq<bv8>)
    requires Fits(s, g, |f|)
    ensures |r| == |f|
  {
    seq(|f|, i requires 0 <= i < |f| => FrameByte(f, s, g, luma, i))
  }

  /**
   * Pixel `x = 8*byte + bit` of line `y` lands in frame byte `y*LCD_ROWSIZE + byte`,
   * at bit position `7 - bit`, and that bit is the pixel's decision, whatever the
   * frame held before.
   */
  lemma ConvertedPixel(f: seq<bv8>, s: Surface, g: Geometry, luma: Rgb -> Byte, y: nat, byte: nat, bit: nat)
    requires Fits(s, g, |f|)
    requires y < g.rows && byte < g.bytesPerLine && bit < 8
    ensures y * g.rowSize + byte < |Converted(f, s, g, luma)|
    ensures TestBit(Converted(f, s, g, luma)[y * g.rowSize + byte], 7 - bit)
            == PixelBit(s, luma, 8 * byte + bit, y)
  {
    var i := y * g.rowSize + byte;
    var bits := LineBits(s, luma, y, byte);
    ConvertedRow(f, s, g, luma, y, i);
    assert Converted(f, s, g, luma)[i] == PackMsbFirst(bits);
    PackMsbFirstBit(bits, bit);
    assert bits[bit] == PixelBit(s, luma, 8 * byte + bit, y);
  }

  /**
   * Row `line` of the converted frame: its first BYTES_PER_LINE bytes hold the
   * packed decisions of that line, the rest of the row keeps its contents.
   */
  lemma ConvertedRow(f: seq<bv8>, s: Surface, g: Geometry, luma: Rgb -> Byte, line: nat, i: nat)
    requires Fits(s, g, |f|) && line < g.rows
    requires line * g.rowSize <= i < line * g.rowSize + g.rowSize
    ensures i < |f|
    ensures Converted(f, s, g, luma)[i] ==
              if i - line * g.rowSize < g.bytesPerLine
              then PackMsbFirst(LineBits(s, luma, line, i - line * g.rowSize))
              else f[i]
  {
    RowInFrame(line, g.rowSize, g.rows);
    RowColumn(line, i - line * g.rowSize, g.rowSize);
  }

  /**
   * The padding bytes after BYTES_PER_LINE in each row, and everything after the
   * last row, keep their previous contents.
   */
  lemma ConvertedPadding(f: seq<bv8>, s: Surface, g: Geometry, luma: Rgb -> Byte, i: nat)
    requires Fits(s, g, |f|) && i < |f|
    requires 0 < g.rowSize ==> i >= g.rows * g.rowSize || i % g.rowSize >= g.bytesPerLine
    ensures Converted(f, s, g, luma)[i] == f[i]
  {
  }

  /**
   * With a luma that is 0 on black and at least 170 on white, eight black pixels
   * pack to 0x00 and eight white pixels to 0xFF, whatever the table cells.
   */
  lemma UniformByte(s: Surface, luma: Rgb -> Byte, y: nat, byte: nat)
    requires s.Valid() && 8 * byte + 8 <= s.w && y < s.h
    requires luma(Black) == 0 && luma(White) >= 170
    ensures (forall x :: 8 * byte <= x < 8 * byte + 8 ==> PixelAt(s, x, y) == Black)
            ==> PackMsbFirst(LineBits(s, luma, y, byte)) == 0x00
    ensures (forall x :: 8 * byte <= x < 8 * byte + 8 ==> PixelAt(s, x, y) == White)
            ==> PackMsbFirst(LineBits(s, luma, y, byte)) == 0xFF
  {
    var bits := LineBits(s, luma, y, byte);
    if forall x :: 8 * byte <= x < 8 * byte + 8 ==> PixelAt(s, x, y) == Black {
      forall k | 0 <= k < 8
        ensures !bits[k]
      {
        assert PixelAt(s, 8 * byte + k, y) == Black;
        LineBitsAt(s, luma, y, byte, k);
        DarkClearsBrightSets(luma(Black), Threshold(8 * byte + k, y));
      }
      PackUniform(bits);
    }
    if forall x :: 8 * byte <= x < 8 * byte + 8 ==> PixelAt(s, x, y) == White {
      forall k | 0 <= k < 8
        ensures bits[k]
      {
        assert PixelAt(s, 8 * byte + k, y) == White;
        LineBitsAt(s, luma, y, byte, k);
        DarkClearsBrightSets(luma(White), Threshold(8 * byte + k, y));
      }
      PackUniform(bits);
    }
  }

  /**
   * With a luma that is 0 on black and at least 170 on white, an all-black line
   * converts to bytes 0x00 and an all-white line to bytes 0xFF.
   */
  lemma UniformLines(f: seq<bv8>, s: Surface, g: Geometry, luma: Rgb -> Byte, y: nat, byte: nat)
    requires Fits(s, g, |f|) && y < g.rows && byte < g.bytesPerLine
    requires luma(Black) == 0 && luma(White) >= 170
    ensures y * g.rowSize + byte < |f|
    ensures (forall x :: 0 <= x < g.Columns() ==> PixelAt(s, x, y) == Black)
            ==> Converted(f, s, g, luma)[y * g.rowSize + byte] == 0x00
    ensures (forall x :: 0 <= x < g.Columns() ==> PixelAt(s, x, y) == White)
            ==> Converted(f, s, g, luma)[y * g.rowSize + byte] == 0xFF
  {
    ConvertedRow(f, s, g, luma, y, y * g.rowSize + byte);
    UniformByte(s, luma, y, byte);
  }

  /** Two pixels of equal colour 8 columns or 8 lines apart get the same bit. */
  lemma PixelBitPeriodic(s: Surface, luma: Rgb -> Byte, x: nat, y: nat, i: nat, j: nat)
    requires s.Valid() && x + 8 * i < s.w && y + 8 * j < s.h
    ensures PixelAt(s, x, y) == PixelAt(s, x + 8 * i, y + 8 * j)
            ==> PixelBit(s, luma, x, y) == PixelBit(s, luma, x + 8 * i, y + 8 * j)
  {
    DecisionPeriodic(luma(PixelAt(s, x, y)), x, y, i, j);
  }

  /**
   * The `bit` loop for one frame byte: the eight pixels `x .. x + 7` of line `y`
   * are dithered in turn and their bits set or cleared, most significant first.
   */
  method DitherByte(s: Surface, luma: Rgb -> Byte, frame: array<bv8>, at: nat, byte: nat, y: nat)
    requires s.Valid() && 8 * byte + 8 <= s.w && y < s.h && at < frame.Length
    modifies frame
    ensures frame[at] == PackMsbFirst(LineBits(s, luma, y, byte))
    ensures forall i :: 0 <= i < frame.Length && i != at ==> frame[i] == old(frame[i])
  {
    ghost var bits := LineBits(s, luma, y, byte);
    ghost var orig := frame[at];
    var w := s.w;
    var x := 8 * byte;
    for bit := 0 to 8
      invariant x == 8 * byte + bit
      invariant frame[at] == Overlay(orig, bits, bit)
      invariant forall i :: 0 <= i < frame.Length && i != at ==> frame[i] == old(frame[i])
    {
      PixelIndexInBounds(x, y, w, s.h);
      var pixel := s.pixels[y * w + x];
      var intensity := luma(pixel);
      MapInRange(y % 8, x % 8);
      var val := intensity + intensity * DitherMap[y % 8][x % 8] / Divisor;
      assert (val >= Cutoff) == bits[bit] by {
        assert pixel == PixelAt(s, x, y);
        assert bits[bit] == PixelBit(s, luma, x, y);
      }
      ghost var before := frame[at];
      if val >= Cutoff {
        frame[at] := SetBit(frame[at], BitIndex[bit]);
      } else {
        frame[at] := ClearBit(frame[at], BitIndex[bit]);
      }
      assert frame[at] == SetOrClear(before, BitIndex[bit], bits[bit]);
      x := x + 1;
    }
    OverlayComplete(orig, bits);
  }

  /**
   * The `byte` loop for one line: the BYTES_PER_LINE bytes that start at frame
   * offset `row` are filled from the first BYTES_PER_LINE*8 pixels of line `y`.
   * The source's column counter `x` lives in DitherByte, which starts it at
   * `8 * byte`, the value it has on entry to each pass of this loop.
   */
  method DitherLine(s: Surface, luma: Rgb -> Byte, bytesPerLine: nat, frame: array<bv8>, row: nat, y: nat)
    requires s.Valid() && 8 * bytesPerLine <= s.w && y < s.h && row + bytesPerLine <= frame.Length
    modifies frame
    ensures forall i :: row <= i < row + bytesPerLine ==>
              frame[i] == PackMsbFirst(LineBits(s, luma, y, i - row))
    ensures forall i :: 0 <= i < frame.Length && !(row <= i < row + bytesPerLine) ==>
              frame[i] == old(frame[i])
  {
    for byte := 0 to bytesPerLine
      invariant forall i :: row <= i < row + byte ==>
                  frame[i] == PackMsbFirst(LineBits(s, luma, y, i - row))
      invariant forall i :: 0 <= i < frame.Length && !(row <= i < row + byte) ==>
                  frame[i] == old(frame[i])
    {
      DitherByte(s, luma, frame, row + byte, byte, y);
    }
  }

  /**
   * One more line done: if the frame `before` holds the converted bytes below
   * offset `row` and its old contents from there on, and `after` is `before`
   * with line `line` dithered in, then `after` holds the converted bytes below
   * `row + LCD_ROWSIZE`.
   */
  lemma LineConverted(f0: seq<bv8>, s: Surface, g: Geometry, luma: Rgb -> Byte, line: nat, row: nat,
                      before: seq<bv8>, after: seq<bv8>)
    requires Fits(s, g, |f0|) && line < g.rows && row == line * g.rowSize
    requires |before| == |f0| && |after| == |f0|
    requires forall i :: 0 <= i < |f0| ==>
               before[i] == if i < row then Converted(f0, s, g, luma)[i] else f0[i]
    requires forall i :: row <= i < row + g.bytesPerLine && i < |after| ==>
               after[i] == PackMsbFirst(LineBits(s, luma, line, i - row))
    requires forall i :: 0 <= i < |f0| && !(row <= i < row + g.bytesPerLine) ==> after[i] == before[i]
    ensures forall i :: 0 <= i < |f0| ==>
              after[i] == if i < row + g.rowSize then Converted(f0, s, g, luma)[i] else f0[i]
  {
    forall i | 0 <= i < |f0|
      ensures after[i] == if i < row + g.rowSize then Converted(f0, s, g, luma)[i] else f0[i]
    {
      if row <= i < row + g.rowSize {
        ConvertedRow(f0, s, g, luma, line, i);
      }
    }
  }

  /**
   * The conversion loop of SDL_PLAYDATE_UpdateWindowFramebuffer: each of the
   * LCD_ROWS lines is dithered into the row at the `frame` pointer, which then
   * moves on by LCD_ROWSIZE bytes.
   */
  method ConvertFrame(s: Surface, luma: Rgb -> Byte, g: Geometry, frame: array<bv8>)
    requires Fits(s, g, frame.Length)
    modifies frame
    ensures frame[..] == Converted(old(frame[..]), s, g, luma)
  {
    ghost var f0 := frame[..];
    var row := 0;  // offset of the `frame` pointer into the frame buffer
    var y := 0;
    for line := 0 to g.rows
      invariant y == line && row == line * g.rowSize
      invariant forall i :: 0 <= i < frame.Length ==>
                  frame[i] == if i < row then Converted(f0, s, g, luma)[i] else f0[i]
    {
      RowInFrame(line, g.rowSize, g.rows);
      ghost var before := frame[..];
      DitherLine(s, luma, g.bytesPerLine, frame, row, y);
      LineConverted(f0, s, g, luma, line, row, before, frame[..]);
      assert (line + 1) * g.rowSize == row + g.rowSize;
      row := row + g.rowSize;
      y := y + 1;
    }
    assert frame[..] == Converted(f0, s, g, luma);
  }

  /**
   * SDL_PLAYDATE_UpdateWindowFramebuffer: when the window has no surface
   * attached it reports the error (-1) before touching the frame. Otherwise the
   * firmware clears the frame to white, which is the foreign call the
   * parameter `cleared` stands for (the buffer as the clear leaves it), every
   * line is converted into it and the result is 0.
   */
  method UpdateWindowFramebuffer(surface: Option<Surface>, luma: Rgb -> Byte, g: Geometry,
                                 frame: array<bv8>, cleared: seq<bv8>)
    returns (status: int)
    requires |cleared| == frame.Length
    requires surface.Some? ==> Fits(surface.value, g, frame.Length)
    modifies frame
    ensures surface.None? ==> status == -1 && frame[..] == old(frame[..])
    ensures surface.Some? ==> status == 0 && frame[..] == Converted(cleared, surface.value, g, luma)
  {
    if surface.None? {
      return -1;
    }
    forall i | 0 <= i < frame.Length {
      frame[i] := cleared[i];
    }
    assert frame[..] == cleared;
    ConvertFrame(surface.value, luma, g, frame);
    return 0;
  }
}
