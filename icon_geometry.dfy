/**
 * Geometry of the icon editor (js/modules/imageEditor.js): the integer draw
 * area an image gets inside the canvas, the square selection seeded inside
 * it, the clamps applied by the drag and resize gestures, and the mapping of
 * the selection back to source-image pixels. Every value the editor keeps is
 * floored to an integer, so the model is over `int`; Dafny's `/` by a
 * positive divisor is `Math.floor` of the quotient.
 */
module IconGeometry {
  import opened Common
  import Arith

  datatype Rect = Rect(x: int, y: int, width: int, height: int)

  /** The box `inner` lies inside `outer`. */
  predicate Inside(inner: Rect, outer: Rect)
  {
    outer.x <= inner.x && inner.x + inner.width <= outer.x + outer.width
    && outer.y <= inner.y && inner.y + inner.height <= outer.y + outer.height
  }

  function Abs(v: int): nat { if v < 0 then -v else v }

  /** The canvas takes its parent's client size, or 400×400 when it has no parent. */
  function ContainerSize(parent: Option<(nat, nat)>): (nat, nat)
  {
    match parent
    case None => (400, 400)
    case Some(size) => size
  }

  /** `Math.abs(iw / ih - 1) < 0.01`, multiplied through by `ih`. */
  predicate NearlySquare(iw: int, ih: int)
    requires ih > 0
  {
    100 * Abs(iw - ih) < ih
  }

  /**
   * `imageRatio >= containerRatio`. With a zero container height the
   * container ratio is `Infinity` or `NaN`, and the comparison is false.
   */
  predicate WiderThanContainer(iw: int, ih: int, cw: int, ch: int)
  {
    ch > 0 && iw * ch >= cw * ih
  }

  /** The draw area `loadImageToCanvas` computes for an `iw`×`ih` image in a `cw`×`ch` canvas. */
  function FitDrawArea(iw: int, ih: int, cw: int, ch: int): (r: Rect)
    requires iw > 0 && ih > 0 && cw >= 0 && ch >= 0
    ensures Inside(r, Rect(0, 0, cw, ch)) && r.width >= 0 && r.height >= 0
    // centred: the two margins differ by at most one pixel, the extra one on the far side
    ensures 0 <= (cw - r.x - r.width) - r.x <= 1 && 0 <= (ch - r.y - r.height) - r.y <= 1
    ensures NearlySquare(iw, ih) ==> r.width == Min(cw, ch) && r.height == Min(cw, ch)
    // a wider image spans the width; its height is the largest one not exceeding the image's aspect
    ensures !NearlySquare(iw, ih) && WiderThanContainer(iw, ih, cw, ch) ==>
      r.width == cw && r.x == 0 && r.height * iw <= cw * ih < (r.height + 1) * iw
    // a taller image spans the height; its width is the largest one not exceeding the image's aspect
    ensures !NearlySquare(iw, ih) && !WiderThanContainer(iw, ih, cw, ch) ==>
      r.height == ch && r.y == 0 && r.width * ih <= ch * iw < (r.width + 1) * ih
  {
    if NearlySquare(iw, ih) then
      var side := Min(cw, ch);
      Rect((cw - side) / 2, (ch - side) / 2, side, side)
    else if WiderThanContainer(iw, ih, cw, ch) then FitWide(iw, ih, cw, ch)
    else FitTall(iw, ih, cw, ch)
  }

  /** The draw area of an image wider than the canvas: full width, centred vertically. */
  function FitWide(iw: int, ih: int, cw: int, ch: int): (r: Rect)
    requires iw > 0 && ih > 0 && cw >= 0 && WiderThanContainer(iw, ih, cw, ch)
    ensures r.x == 0 && r.width == cw && 0 <= r.y && 0 <= r.height && r.y + r.height <= ch
    ensures 0 <= (ch - r.y - r.height) - r.y <= 1
    ensures r.height * iw <= cw * ih < (r.height + 1) * iw
  {
    var dh := cw * ih / iw;
    Arith.DivBounds(cw * ih, iw);
    assert dh <= ch by {
      if dh > ch { Arith.MulLe(ch + 1, dh, iw); }
    }
    assert dh >= 0 by { Arith.DivMono(0, cw * ih, iw); }
    Rect(0, (ch - dh) / 2, cw, dh)
  }

  /** The draw area of an image taller than the canvas: full height, centred horizontally. */
  function FitTall(iw: int, ih: int, cw: int, ch: int): (r: Rect)
    requires iw > 0 && ih > 0 && cw >= 0 && ch >= 0 && !WiderThanContainer(iw, ih, cw, ch)
    ensures r.y == 0 && r.height == ch && 0 <= r.x && 0 <= r.width && r.x + r.width <= cw
    ensures 0 <= (cw - r.x - r.width) - r.x <= 1
    ensures r.width * ih <= ch * iw < (r.width + 1) * ih
  {
    var dw := ch * iw / ih;
    Arith.DivBounds(ch * iw, ih);
    assert dw <= cw by {
      if ch > 0 {
        assert ch * iw < cw * ih;
        if dw > cw { Arith.MulLe(cw + 1, dw, ih); }
      }
    }
    assert dw >= 0 by { Arith.DivMono(0, ch * iw, ih); }
    Rect((cw - dw) / 2, 0, dw, ch)
  }

  /** A 1000×500 image in a 400×400 canvas is drawn at {0, 100, 400, 200}. */
  lemma FitWideExample()
    ensures FitDrawArea(1000, 500, 400, 400) == Rect(0, 100, 400, 200)
  {
    assert !NearlySquare(1000, 500);
    assert WiderThanContainer(1000, 500, 400, 400);
    assert 400 * 500 / 1000 == 200;
  }

  /**
   * The square selection seeded after loading: side min(width, height),
   * centred (floored) in the draw area.
   */
  function SeedSelection(area: Rect): (r: Rect)
    requires area.width >= 0 && area.height >= 0
    ensures r.width == r.height == Min(area.width, area.height)
    ensures Inside(r, area)
    ensures 0 <= (area.x + area.width - r.x - r.width) - (r.x - area.x) <= 1
    ensures 0 <= (area.y + area.height - r.y - r.height) - (r.y - area.y) <= 1
  {
    var side := Min(area.width, area.height);
    Rect(area.x + (area.width - side) / 2, area.y + (area.height - side) / 2, side, side)
  }

  /**
   * `startDragging`: the gesture's starting coordinate is the box's current
   * coordinate clamped to the canvas, `max(0, min(canvasLen - size, pos))`.
   */
  function StartAxis(pos: int, canvasLen: int, size: int): (r: int)
    ensures 0 <= pos && pos + size <= canvasLen ==> r == pos
    ensures r <= canvasLen - size || r == 0
  {
    Clamp(pos, 0, canvasLen - size)
  }

  /**
   * `dragSelection` along one axis: the gesture-start coordinate moved by the
   * cursor's displacement, clamped to `[lo, max(lo, lo + len - size)]`.
   */
  function DragAxis(initial: int, start: int, cursor: int, lo: int, len: int, size: int): (r: int)
    ensures lo <= r <= Max(lo, lo + len - size)
    ensures size <= len ==> r + size <= lo + len
    ensures lo <= initial + (cursor - start) <= lo + len - size ==> r == initial + (cursor - start)
    ensures initial + (cursor - start) < lo ==> r == lo
    ensures initial + (cursor - start) > Max(lo, lo + len - size) ==> r == Max(lo, lo + len - size)
  {
    Clamp(initial + (cursor - start), lo, Max(lo, lo + len - size))
  }

  /** The room left between the box's corner and the far edges of the draw area. */
  function Available(selX: int, selY: int, area: Rect): int
  {
    Min(area.x + area.width - selX, area.y + area.height - selY)
  }

  /**
   * `resizeSelection`: the new side of the square box after the cursor has
   * moved by (dx, dy) since the gesture began with side `initial`.
   */
  function ResizeSide(initial: int, dx: int, dy: int, selX: int, selY: int, area: Rect): (r: int)
    ensures r >= 1
    ensures Available(selX, selY, area) >= 1 ==> r <= Available(selX, selY, area)
    ensures r >= Min(20, Available(selX, selY, area))
    ensures 20 <= initial + Max(dx, dy) <= Available(selX, selY, area) ==> r == initial + Max(dx, dy)
  {
    var newSize := Max(20, initial + Max(dx, dy));
    var maxAllowed := Max(1, Available(selX, selY, area));
    Max(1, Min(newSize, maxAllowed))
  }

  /**
   * `processImage`: the selection mapped into source-image pixels, then
   * clipped to start inside the image and to be at least one pixel wide and
   * high.
   */
  function CropRect(sel: Rect, area: Rect, iw: int, ih: int): (r: Rect)
    requires area.width > 0 && area.height > 0 && iw > 0 && ih > 0
    ensures r.x >= 0 && r.y >= 0 && r.width >= 1 && r.height >= 1
    ensures r.x < iw ==> r.x + r.width <= iw
    ensures r.y < ih ==> r.y + r.height <= ih
  {
    var sourceX := (sel.x - area.x) * iw / area.width;
    var sourceY := (sel.y - area.y) * ih / area.height;
    var sourceW := sel.width * iw / area.width;
    var sourceH := sel.height * ih / area.height;
    var validX := Max(0, sourceX);
    var validY := Max(0, sourceY);
    Rect(validX, validY, Max(1, Min(sourceW, iw - validX)), Max(1, Min(sourceH, ih - validY)))
  }

  /** One axis of the crop when the selection lies inside the draw area. */
  lemma CropAxisInside(rel: int, size: int, len: int, full: int)
    requires len > 0 && full > 0 && 0 <= rel && size >= 1 && rel + size <= len
    ensures 0 <= rel * full / len < full
    ensures rel * full / len + size * full / len <= full
    ensures rel * full / len + Max(1, Min(size * full / len, full - Max(0, rel * full / len))) <= full
  {
    Arith.DivMono(0, rel * full, len);
    Arith.DivAdd(rel * full, size * full, len);
    Arith.MulLe(rel + size, len, full);
    assert (rel + size) * full == rel * full + size * full;
    Arith.DivMono(rel * full + size * full, len * full, len);
    Arith.MulDivCancel(full, len);
    assert len * full == full * len;
    Arith.MulLe(rel + 1, len, full);
    assert (rel + 1) * full == rel * full + full;
    Arith.DivMono(rel * full, len * full - full, len);
    Arith.DivBounds(len * full - full, len);
    assert (len * full - full) / len < full by {
      if (len * full - full) / len >= full {
        Arith.MulLe(full, (len * full - full) / len, len);
      }
    }
  }

  /**
   * A selection inside the draw area maps to a crop inside the source image,
   * so the clip in `processImage` only matters for boxes outside the area.
   */
  lemma CropInsideImage(sel: Rect, area: Rect, iw: int, ih: int)
    requires area.width > 0 && area.height > 0 && iw > 0 && ih > 0
    requires sel.width >= 1 && sel.height >= 1 && Inside(sel, area)
    ensures Inside(CropRect(sel, area, iw, ih), Rect(0, 0, iw, ih))
    ensures CropRect(sel, area, iw, ih).x == (sel.x - area.x) * iw / area.width
    ensures CropRect(sel, area, iw, ih).y == (sel.y - area.y) * ih / area.height
  {
    CropAxisInside(sel.x - area.x, sel.width, area.width, iw);
    CropAxisInside(sel.y - area.y, sel.height, area.height, ih);
  }
}
