# Playdate framebuffer dithering, modelled in Dafny

This project models the framebuffer update of SDL's Playdate video driver.
`SDL_PLAYDATE_UpdateWindowFramebuffer` takes the window's truecolor surface and
writes it into the Playdate's monochrome LCD frame buffer, one bit per pixel,
using ordered dithering:

- each pixel's 8-bit luma `L` is compared against a threshold `T` taken from a
  fixed 8×8 table, tiled over the frame as `map[y % 8][x % 8]`;
- the dithered intensity is `L + L*T/63` in integer arithmetic;
- the pixel's bit is set when that value is at least 172 and cleared otherwise;
- eight pixels go into one byte, the first in the most significant bit
  (`bitIndex`), and the frame row pointer moves on by `LCD_ROWSIZE` bytes per line;
- with no surface attached to the window, the routine reports an error before
  it writes anything.

Files:

- `Arithmetic.dfy`: facts about non-negative division and row/column offsets.
- `Dither.dfy`: the threshold table, the intensity, the per-pixel decision and
  its properties. A bit is set exactly when `L >= ceil(172*63 / (63+T))`. So a
  luma of at most 85 always clears the bit and a luma of at least 170 always
  sets it, whatever the cell.
- `BitPacking.dfy`: what `|=` and `&= ~` do to a frame byte, MSB-first packing,
  and `Overlay`, the byte after the first `n` passes of the `bit` loop.
- `Framebuffer.dfy`: the surface, the display geometry, `Converted` (the whole
  frame after conversion, as a function of the old frame), the conversion loop
  as methods over an `array<bv8>`, and the top-level routine with its error path.

The display constants `LCD_ROWS`, `BYTES_PER_LINE` and `LCD_ROWSIZE` are the
fields `rows`, `bytesPerLine` and `rowSize` of a `Geometry` parameter. The
conversion needs only `BYTES_PER_LINE <= LCD_ROWSIZE`, a surface at least
`BYTES_PER_LINE*8` pixels wide and `LCD_ROWS` lines high, and a frame of at least
`LCD_ROWS*LCD_ROWSIZE` bytes. The loop assumes these and never checks them, so
the model states them as preconditions (`Fits`).

The pixel's luma is a parameter `luma: Rgb -> Byte`. The source computes it with
single-precision floats, and that is not modelled. `Bt709Luma` gives the same
weights in exact integer arithmetic as a reference instance. The black and white
line properties assume only `luma(Black) == 0` and `luma(White) >= 170`.

The three nested loops of the source are one method each. `ConvertFrame` is the
`line` loop, `DitherLine` the `byte` loop and `DitherByte` the `bit` loop.
Each is proved against `Converted`, `LineBits` and `PackMsbFirst`.

Three points of the code's behaviour worth noting:

- The row stride `LCD_ROWSIZE` is separate from `BYTES_PER_LINE`. The padding
  bytes at the end of each row are not written by the loop, so not every byte
  of the frame is rewritten.
- A set bit means a bright pixel: luma high enough that `val >= 172`.
- Mismatched surface sizes are not detected. Reading in bounds is a
  precondition, not an error result.

## Model

| member | source | states |
|---|---|---|
| Dither.MapInRange | src/video/playdate/SDL_playdate_framebuffer.c:36-45 | the dither table is 8×8 and every entry lies in [1,64] |
| Dither.Threshold | src/video/playdate/SDL_playdate_framebuffer.c:100 | the threshold `map[y % 8][x % 8]` tiled onto any pixel lies in [1,64] |
| Dither.Intensity | src/video/playdate/SDL_playdate_framebuffer.c:100 | defined as `L + L*T/63` with C's grouping (the product first, then the truncating division); its result is at least `L`, and IntensityBounds and DecisionThreshold state the rest |
| Dither.BitSet | src/video/playdate/SDL_playdate_framebuffer.c:100-101 | defined as the inclusive test `Intensity(L, T) >= 172`; DecisionThreshold proves it equal to `L >= ceil(172*63/(63+T))` |
| Dither.Decide | src/video/playdate/SDL_playdate_framebuffer.c:100-101 | defined as BitSet with the tiled threshold `map[y % 8][x % 8]`; DecisionPeriodic and GrayHalftone state its properties |
| Dither.IntensityBounds | src/video/playdate/SDL_playdate_framebuffer.c:100 | `val = L + L*T/63` lies in [L, L + L*64/63] and is at most 514, so it cannot overflow |
| Dither.DecisionThreshold | src/video/playdate/SDL_playdate_framebuffer.c:100-105 | the bit is set if and only if `L >= ceil(172*63/(63+T))`: the inclusive `>= 172` test is a pure luma threshold per cell |
| Dither.DecisionMonotone | src/video/playdate/SDL_playdate_framebuffer.c:100-105 | raising the luma or the threshold never turns a set bit into a cleared one |
| Dither.DarkClearsBrightSets | src/video/playdate/SDL_playdate_framebuffer.c:100-105 | `L <= 85` always clears and `L >= 170` always sets the bit; at the inclusive boundary, L = 170 with T = 1 gives 172 and sets, L = 169 gives 171 and clears |
| Dither.ThresholdRange | src/video/playdate/SDL_playdate_framebuffer.c:36-45 | over the table's values the luma threshold lies in [86,170], and both ends are reached (cells 64 and 1) |
| Dither.DecisionPeriodic | src/video/playdate/SDL_playdate_framebuffer.c:100 | the decision for a luma is the same at (x, y) and (x+8i, y+8j) |
| Dither.GrayHalftone | src/video/playdate/SDL_playdate_framebuffer.c:100-105 | a luma of 128 sets exactly the cells with T >= 22, so uniform gray becomes a halftone with both set and cleared pixels in a tile |
| BitPacking.BitIndexMsbFirst | src/video/playdate/SDL_playdate_framebuffer.c:34 | `bitIndex[bit] == 7 - bit`: the first pixel of a byte goes to the most significant bit |
| BitPacking.MaskIsShift | src/video/playdate/SDL_playdate_framebuffer.c:102 | the mask table is the source's `1 << k` for every bit position |
| BitPacking.SetBit | src/video/playdate/SDL_playdate_framebuffer.c:102 | defined as `b | (1 << k)`, through MaskIsShift; SetOrClearBit states what it does to each bit |
| BitPacking.ClearBit | src/video/playdate/SDL_playdate_framebuffer.c:104 | defined as `b & ~(1 << k)`, through MaskIsShift; SetOrClearBit states what it does to each bit |
| BitPacking.SetOrClear | src/video/playdate/SDL_playdate_framebuffer.c:101-105 | defined as the branch on `val >= 172` between SetBit and ClearBit; SetOrClearBit states its effect |
| BitPacking.SetOrClearBit | src/video/playdate/SDL_playdate_framebuffer.c:101-105 | `|= 1 << k` and `&= ~(1 << k)` give bit k the decision and leave the other seven bits unchanged |
| BitPacking.PackMsbFirst | src/video/playdate/SDL_playdate_framebuffer.c:95-104 | defined as the byte holding decision `bit` at position `7 - bit`; PackMsbFirstBit and PackUniform state its properties |
| BitPacking.PackMsbFirstBit | src/video/playdate/SDL_playdate_framebuffer.c:95-104 | decision `bit` of a packed byte sits at bit position `7 - bit` |
| BitPacking.PackUniform | src/video/playdate/SDL_playdate_framebuffer.c:95-104 | eight cleared decisions pack to 0x00 and eight set ones to 0xFF |
| BitPacking.Overlay | src/video/playdate/SDL_playdate_framebuffer.c:95-107 | defined as the frame byte after the first `n` passes of the `bit` loop, starting from `orig`; OverlayBit and OverlayComplete state what it holds |
| BitPacking.OverlayStep | src/video/playdate/SDL_playdate_framebuffer.c:101-105 | pass `n` of the `bit` loop writes decision `n - 1` to bit `8 - n` and leaves every other bit unchanged |
| BitPacking.OverlayBit | src/video/playdate/SDL_playdate_framebuffer.c:95-107 | after n passes of the `bit` loop, bits 7..8-n hold the first n decisions and the lower bits are unchanged |
| BitPacking.OverlayComplete | src/video/playdate/SDL_playdate_framebuffer.c:95-107 | after all eight passes the byte is the packed decisions, whatever it held before |
| Framebuffer.Bt709Luma | src/video/playdate/SDL_playdate_framebuffer.c:99 | the weighted luma, truncated, lies between the smallest and the largest channel, and a gray pixel keeps its level (black 0, white 255) |
| Framebuffer.PixelIndexInBounds | src/video/playdate/SDL_playdate_framebuffer.c:96 | the read `pixels[y*w + x]` stays inside a w×h surface for x < w and y < h |
| Framebuffer.PixelAt | src/video/playdate/SDL_playdate_framebuffer.c:96 | defined as the read `pixels[y*w + x]`, kept in bounds by PixelIndexInBounds |
| Framebuffer.LineBits | src/video/playdate/SDL_playdate_framebuffer.c:95-100 | defined as the eight decisions for pixels `8*byte .. 8*byte+7` of a line, in the order of the `bit` loop; always eight of them |
| Framebuffer.FrameByte | src/video/playdate/SDL_playdate_framebuffer.c:91-111 | defined as the packed LineBits for a byte the loop writes, otherwise the old byte; ConvertedRow and ConvertedPadding state both cases |
| Framebuffer.Converted | src/video/playdate/SDL_playdate_framebuffer.c:91-111 | defined as the whole frame after the loop, as a function of the frame before it; it keeps the frame's length, and ConvertedPixel, ConvertedRow and ConvertedPadding state its contents |
| Framebuffer.ConvertedPixel | src/video/playdate/SDL_playdate_framebuffer.c:91-111 | pixel `8*byte + bit` of line y lands at bit `7 - bit` of frame byte `y*LCD_ROWSIZE + byte`, and that bit is its decision, independent of the old frame |
| Framebuffer.ConvertedRow | src/video/playdate/SDL_playdate_framebuffer.c:92-111 | each row's first BYTES_PER_LINE bytes are the packed decisions of its line; the rest of the row is unchanged |
| Framebuffer.ConvertedPadding | src/video/playdate/SDL_playdate_framebuffer.c:92-111 | padding bytes past BYTES_PER_LINE in a row, and bytes after the last row, keep their contents |
| Framebuffer.UniformByte | src/video/playdate/SDL_playdate_framebuffer.c:95-105 | eight black pixels pack to 0x00 and eight white pixels to 0xFF, whatever the table cells |
| Framebuffer.UniformLines | src/video/playdate/SDL_playdate_framebuffer.c:91-111 | an all-black line converts to bytes 0x00 and an all-white line to bytes 0xFF |
| Framebuffer.PixelBitPeriodic | src/video/playdate/SDL_playdate_framebuffer.c:96-100 | two pixels of equal colour at (x, y) and (x+8i, y+8j) get the same bit |
| Framebuffer.DitherByte | src/video/playdate/SDL_playdate_framebuffer.c:95-107 | the `bit` loop leaves the target byte equal to its eight packed decisions and changes no other byte |
| Framebuffer.DitherLine | src/video/playdate/SDL_playdate_framebuffer.c:94-108 | the `byte` loop fills BYTES_PER_LINE bytes from the row pointer with the line's packed decisions and changes nothing else |
| Framebuffer.LineConverted | src/video/playdate/SDL_playdate_framebuffer.c:109-110 | after a line is written, the frame is converted up to the next row start and unchanged after it |
| Framebuffer.ConvertFrame | src/video/playdate/SDL_playdate_framebuffer.c:91-111 | the whole loop leaves the frame equal to `Converted` of its old contents |
| Framebuffer.UpdateWindowFramebuffer | src/video/playdate/SDL_playdate_framebuffer.c:72-117 | no surface: returns -1 and the frame is unchanged; otherwise returns 0 and the frame is `Converted` of the buffer as the firmware's clear left it |

## Left out

- Bt709Luma: the source computes luma with `float` weights and truncates to `Uint8` (line 99). Float rounding is not modelled. The model takes the luma as a parameter, and `Bt709Luma` is the exact-arithmetic reading, which can differ from the float result by one level.
- `SDL_GetRGB` (line 98) and `SDL_ConvertSurfaceFormat` (line 81) are external SDL calls. The surface is modelled as already decoded `Rgb` triples with the converted surface's size. A NULL result from the conversion is not modelled.
- `SDL_FreeSurface` (line 113) frees memory, which the model does not track.
- `pd->graphics->clear`, `getFrame` and `display` (lines 84, 89, 114) are Playdate firmware calls. `UpdateWindowFramebuffer` takes the buffer as `clear(kColorWhite)` leaves it as the parameter `cleared`, copies it into the frame on the success path only, and then converts. The padding bytes therefore hold what the clear wrote. The model does not say which byte value the clear writes. Statements about untouched padding bytes are relative to that state.
- `SDL_PLAYDATE_CreateWindowFramebuffer` and `SDL_PLAYDATE_DestroyWindowFramebuffer` (lines 47-70, 119-125) only allocate surfaces and record window data. The model takes the window's surface directly as an `Option<Surface>`.
- UpdateWindowFramebuffer: the `rects`/`numrects` arguments and the unused locals `frame_number` and `area` do not affect behaviour. The model omits them.
- UpdateWindowFramebuffer: `SDL_SetError` is external. Its message is not modelled, only the -1 it returns.
- The pixel read `pixels[y * w + x]` assumes a row pitch of exactly `4*w` bytes. ARGB8888 gives that, and the model uses `w` pixels per row.
- C `int` overflow of `y * w + x` is not modelled: integers are unbounded. `IntensityBounds` shows the intensity itself stays below 515.
- The values of `LCD_ROWS`, `BYTES_PER_LINE` and `LCD_ROWSIZE` are defined in `pd_api.h` and `SDL_playdate_framebuffer_c.h`, which are not part of this model. They are parameters.
- `include/SDL_config_playdate.h` only holds build configuration and is not modelled.
