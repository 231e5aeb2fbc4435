/** The integer raster arithmetic of `drawFrame` and `drawCrtOverlay`: the size
    of the low-resolution phosphor canvas (index.js:147-148), the source row
    each output row is copied from when that canvas is scaled up
    (index.js:174-175), the text-layout constants (index.js:152, 160-161) and
    the rows the scanline overlay paints (index.js:83-85). */
module Screen {

  const CanvasWidth: nat := 500
  const CanvasHeight: nat := 200
  const BitmapScale: nat := 3
  const BaseFontSize: nat := 32
  const HorizontalPadding: nat := 16

  /** `Math.floor(CANVAS_WIDTH / BITMAP_SCALE)` and `Math.floor(CANVAS_HEIGHT / BITMAP_SCALE)`. */
  const OffW: nat := CanvasWidth / BitmapScale
  const OffH: nat := CanvasHeight / BitmapScale

  /** `(CANVAS_WIDTH - HORIZONTAL_PADDING * 2) / BITMAP_SCALE`, the wrap width; the
      division is exact. */
  const MaxTextWidth: nat := (CanvasWidth - HorizontalPadding * 2) / BitmapScale

  /** `Math.round(n / d)` for non-negative `n` and positive `d`: halves round up. */
  function RoundDiv(n: nat, d: nat): (r: nat)
    requires d > 0
    ensures 2 * r * d <= 2 * n + d < 2 * (r + 1) * d
  {
    (2 * n + d) / (2 * d)
  }

  /** `Math.max(10, Math.round(BASE_FONT_SIZE / BITMAP_SCALE))`. */
  const PixelFontSize: nat := if RoundDiv(BaseFontSize, BitmapScale) > 10 then RoundDiv(BaseFontSize, BitmapScale) else 10

  /** `Math.round(pixelFontSize * 1.4)`, with 1.4 as 14/10. */
  const LineHeight: nat := RoundDiv(PixelFontSize * 14, 10)

  /** The phosphor canvas is a third of the display, rounded down, and the text
      constants work out to a 156-pixel wrap width, an 11-pixel font and 15-pixel lines. */
  lemma Dimensions()
    ensures OffW == 166 && OffH == 66
    ensures OffW * BitmapScale <= CanvasWidth < (OffW + 1) * BitmapScale
    ensures OffH * BitmapScale <= CanvasHeight < (OffH + 1) * BitmapScale
    ensures MaxTextWidth * BitmapScale == CanvasWidth - 2 * HorizontalPadding
    ensures PixelFontSize == 11 && LineHeight == 15
  {
  }

  /** `srcY = Math.min(offH - 1, Math.floor((y / CANVAS_HEIGHT) * offH))`: the phosphor
      row copied to output row `y`, always a row of the phosphor canvas. */
  function SourceRow(y: nat): (r: nat)
    ensures r < OffH
  {
    var scaled := (y * OffH) / CanvasHeight;
    if OffH - 1 < scaled then OffH - 1 else scaled
  }

  /** Inside the canvas the clamp never applies: row `y` takes phosphor row
      `floor(y * offH / H)`, the nearest-neighbour choice. */
  lemma SourceRowUnclamped(y: nat)
    requires y < CanvasHeight
    ensures SourceRow(y) * CanvasHeight <= y * OffH < (SourceRow(y) + 1) * CanvasHeight
  {
  }

  /** Lower output rows never take later phosphor rows. */
  lemma SourceRowMonotone(y1: nat, y2: nat)
    requires y1 <= y2
    ensures SourceRow(y1) <= SourceRow(y2)
  {
    assert y1 * OffH <= y2 * OffH;
  }

  /** Going down one output row advances at most one phosphor row, starting at the
      first and ending at the last, so every phosphor row is shown. */
  lemma SourceRowCoversPhosphor(y: nat)
    requires y + 1 < CanvasHeight
    ensures SourceRow(y + 1) == SourceRow(y) || SourceRow(y + 1) == SourceRow(y) + 1
    ensures SourceRow(0) == 0 && SourceRow(CanvasHeight - 1) == OffH - 1
  {
    SourceRowUnclamped(y);
    SourceRowUnclamped(y + 1);
  }

  /** Every phosphor row is copied to some output row. */
  lemma SourceRowOnto(row: nat)
    requires row < OffH
    ensures var y := (row * CanvasHeight + OffH - 1) / OffH;
      y < CanvasHeight && SourceRow(y) == row
  {
    var y := (row * CanvasHeight + OffH - 1) / OffH;
    SourceRowUnclamped(y);
  }

  /** The scanline loop `for (let y = 0; y < height; y += 4) fillRect(0, y, W, 1)`:
      the rows it paints, in order. */
  method ScanlineRows(height: nat) returns (rows: seq<nat>)
    ensures |rows| == (height + 3) / 4
    ensures forall i :: 0 <= i < |rows| ==> rows[i] == 4 * i
    ensures forall y: nat :: y in rows <==> y < height && y % 4 == 0
  {
    rows := [];
    var y := 0;
    while y < height
      invariant y % 4 == 0 && y <= height + 3
      invariant |rows| == y / 4
      invariant forall i :: 0 <= i < |rows| ==> rows[i] == 4 * i
      invariant forall z: nat :: z in rows <==> z < y && z % 4 == 0
      decreases height - y
    {
      rows := rows + [y];
      y := y + 4;
    }
  }

  /** With the canvas height the overlay paints 50 scanlines, every fourth row from 0 to 196. */
  method CanvasScanlines() returns (rows: seq<nat>)
    ensures |rows| == 50 && rows[0] == 0 && rows[49] == 196
    ensures forall y: nat :: y in rows <==> y < CanvasHeight && y % 4 == 0
  {
    rows := ScanlineRows(CanvasHeight);
  }
}
