/**
 * The background crop editor (js/modules/backgroundEditor.js). Its geometry
 * is unrounded floating point, modelled here with `real`: the fit never
 * upscales, the selection keeps the screen's aspect ratio, and a resize
 * clips width and height independently. The window size and the canvas
 * container's size, read from the page, are parameters.
 */
module BackgroundEditor {
  import opened Common

  datatype Box = Box(x: real, y: real, width: real, height: real)

  /** The image's natural size, the container's client size, or the canvas size. */
  datatype Dims = Dims(width: real, height: real)

  /** `window.innerWidth` and `window.innerHeight`. */
  datatype Screen = Screen(innerWidth: real, innerHeight: real)

  /** The window leaves a positive area once the 80 px of browser chrome are taken off. */
  predicate Usable(s: Screen) {
    s.innerWidth > 0.0 && s.innerHeight > 80.0
  }

  /** `screenWidth / screenHeight`, where the height discounts the browser chrome. */
  function ScreenRatio(s: Screen): (r: real)
    requires Usable(s)
    ensures r > 0.0
    ensures r * (s.innerHeight - 80.0) == s.innerWidth
  {
    s.innerWidth / (s.innerHeight - 80.0)
  }

  function RMin(a: real, b: real): real { if a <= b then a else b }
  function RMax(a: real, b: real): real { if a >= b then a else b }

  predicate Inside(inner: Box, outer: Box) {
    outer.x <= inner.x && inner.x + inner.width <= outer.x + outer.width
    && outer.y <= inner.y && inner.y + inner.height <= outer.y + outer.height
  }

  /** `Math.min(scaleX, scaleY, 1)`. */
  function FitScale(img: Dims, container: Dims): (s: real)
    requires img.width > 0.0 && img.height > 0.0
    requires container.width >= 0.0 && container.height >= 0.0
    ensures 0.0 <= s <= 1.0
    ensures img.width * s <= container.width && img.height * s <= container.height
    ensures img.width * s == container.width || img.height * s == container.height || s == 1.0
  {
    var sx, sy := container.width / img.width, container.height / img.height;
    RMin(RMin(sx, sy), 1.0)
  }

  /**
   * `fitImageToCanvas`: the image scaled by the fit scale and centred in the
   * container. The area keeps the image's aspect ratio, never exceeds the
   * image's natural size, lies inside the container and touches it on at
   * least one axis unless the image is drawn at natural size.
   */
  function FitArea(img: Dims, container: Dims): (r: Box)
    requires img.width > 0.0 && img.height > 0.0
    requires container.width >= 0.0 && container.height >= 0.0
    ensures 0.0 <= r.width <= img.width && 0.0 <= r.height <= img.height
    ensures r.width * img.height == r.height * img.width
    ensures Inside(r, Box(0.0, 0.0, container.width, container.height))
    ensures container.width - (r.x + r.width) == r.x && container.height - (r.y + r.height) == r.y
    ensures r.width == container.width || r.height == container.height || (r.width == img.width && r.height == img.height)
  {
    var s := FitScale(img, container);
    var w, h := img.width * s, img.height * s;
    Box((container.width - w) / 2.0, (container.height - h) / 2.0, w, h)
  }

  lemma FitAreaExample()
    ensures FitArea(Dims(1000.0, 500.0), Dims(400.0, 400.0)) == Box(0.0, 100.0, 400.0, 200.0)
  {
  }

  /** A small image in a large container is drawn at its natural size, centred. */
  lemma FitNeverUpscales(img: Dims, container: Dims)
    requires img.width > 0.0 && img.height > 0.0
    requires img.width <= container.width && img.height <= container.height
    ensures FitArea(img, container).width == img.width && FitArea(img, container).height == img.height
  {
    assert container.width / img.width >= 1.0 by { DivAtLeastOne(container.width, img.width); }
    assert container.height / img.height >= 1.0 by { DivAtLeastOne(container.height, img.height); }
  }

  lemma DivAtLeastOne(a: real, b: real)
    requires 0.0 < b <= a
    ensures a / b >= 1.0
  {
  }

  /**
   * `initializeSelection`: the largest box of the screen's aspect ratio that
   * fits in the draw area, centred in it.
   */
  function InitialSelection(area: Box, aspect: real): (r: Box)
    requires area.width >= 0.0 && area.height >= 0.0 && aspect > 0.0
    ensures 0.0 <= r.width <= area.width && 0.0 <= r.height <= area.height
    ensures r.width == r.height * aspect
    ensures r.width == area.width || r.height == area.height
    ensures r.x - area.x == (area.x + area.width) - (r.x + r.width)
    ensures r.y - area.y == (area.y + area.height) - (r.y + r.height)
    ensures Inside(r, area)
  {
    var w0 := area.width;
    var h0 := w0 / aspect;
    var (w1, h1) := if h0 > area.height then (area.height * aspect, area.height) else (w0, h0);
    assert h0 > area.height ==> w1 <= area.width by {
      if h0 > area.height {
        assert area.height * aspect < h0 * aspect;
      }
    }
    var w, h := RMin(w1, area.width), RMin(h1, area.height);
    Box(area.x + (area.width - w) / 2.0, area.y + (area.height - h) / 2.0, w, h)
  }

  /** `dragSelection` on one axis: the anchored position, kept at or after the area's start and, room permitting, before its end. */
  function DragAxis(client: real, anchor: real, lo: real, len: real, size: real): (r: real)
    ensures r >= lo
    ensures size <= len ==> r + size <= lo + len
    ensures lo <= client - anchor && client - anchor + size <= lo + len ==> r == client - anchor
    ensures client - anchor < lo ==> r == lo
    ensures client - anchor > lo + len - size ==> r == RMax(lo, lo + len - size)
  {
    RMax(lo, RMin(client - anchor, lo + len - size))
  }

  /**
   * `resizeSelection` for the cursor moved by `dx` since the anchor: the
   * width grows by `dx`, the height follows the screen ratio of that width,
   * and each is clipped to the area's right or bottom edge on its own.
   */
  function Resized(sel: Box, area: Box, dx: real, ratio: real): (r: Box)
    requires ratio > 0.0
    ensures r.x == sel.x && r.y == sel.y
    ensures r.x + r.width <= area.x + area.width && r.y + r.height <= area.y + area.height
    ensures sel.x + sel.width + dx <= area.x + area.width ==> r.width == sel.width + dx
    ensures (sel.width + dx) / ratio + sel.y <= area.y + area.height ==> r.height * ratio == sel.width + dx
  {
    var w := sel.width + dx;
    Box(sel.x, sel.y, RMin(w, area.x + area.width - sel.x), RMin(w / ratio, area.y + area.height - sel.y))
  }

  /** No lower bound: a cursor moved left past the box's width turns its width negative. */
  lemma ResizeCanInvert()
    ensures var r := Resized(Box(10.0, 10.0, 50.0, 50.0), Box(0.0, 0.0, 400.0, 400.0), -80.0, 1.0);
            r.width < 0.0 && r.height < 0.0
  {
  }

  /**
   * The crop rectangle `processImage` computes in source pixels: the
   * selection offset from the draw area and scaled by the image's size over
   * the area's size, neither rounded nor clamped.
   */
  function CropOf(sel: Box, area: Box, img: Dims): Box
    requires area.width > 0.0 && area.height > 0.0
  {
    var sx, sy := img.width / area.width, img.height / area.height;
    Box((sel.x - area.x) * sx, (sel.y - area.y) * sy, sel.width * sx, sel.height * sy)
  }

  /** Selecting the whole draw area crops the whole image. */
  lemma {:induction false} CropOfWholeArea(area: Box, img: Dims)
    requires area.width > 0.0 && area.height > 0.0
    ensures CropOf(area, area, img) == Box(0.0, 0.0, img.width, img.height)
  {
    assert area.width * (img.width / area.width) == img.width;
    assert area.height * (img.height / area.height) == img.height;
  }

  /** A selection inside the draw area crops a rectangle inside the image. */
  lemma CropInsideImage(sel: Box, area: Box, img: Dims)
    requires area.width > 0.0 && area.height > 0.0 && img.width >= 0.0 && img.height >= 0.0
    requires Inside(sel, area)
    ensures Inside(CropOf(sel, area, img), Box(0.0, 0.0, img.width, img.height))
  {
    var sx, sy := img.width / area.width, img.height / area.height;
    var c := CropOf(sel, area, img);
    assert sx >= 0.0 && sy >= 0.0;
    ScaleLe(sel.x - area.x + sel.width, area.width, sx);
    ScaleLe(sel.y - area.y + sel.height, area.height, sy);
    ScaleLe(0.0, sel.x - area.x, sx);
    ScaleLe(0.0, sel.y - area.y, sy);
    assert area.width * sx == img.width && area.height * sy == img.height;
  }

  lemma ScaleLe(a: real, b: real, s: real)
    requires a <= b && s >= 0.0
    ensures a * s <= b * s
  {
  }

  /** The gesture variables: the two flags and `dragStartX/Y`. */
  datatype Gesture = Gesture(isDragging: bool, isResizing: bool, startX: real, startY: real)

  /** What the apply button ends with. */
  datatype ProcessOutcome =
    | NoImage                 // returns silently
    | DegenerateArea          // a zero-size draw area: the scale factors are not finite
    | Cropped(crop: Box)      // the rectangle drawn into the off-screen canvas

  class Editor {
    var canvas: Dims
    var currentImage: Option<Dims>
    var boxVisible: bool
    var gesture: Gesture
    /** `selectionStartX/Y`, `selectionWidth/Height`. */
    var sel: Box
    /** `imageDrawArea`. */
    var area: Box

    /** The draw area is always a non-negative box, and it is the fit of the current image to the canvas. */
    ghost predicate Valid()
      reads this
    {
      Shaped()
      && (currentImage.Some? ==>
            currentImage.value.width > 0.0 && currentImage.value.height > 0.0
            && area == FitArea(currentImage.value, canvas))
    }

    /** The part of `Valid` that does not involve the image. */
    ghost predicate Shaped()
      reads this
    {
      canvas.width >= 0.0 && canvas.height >= 0.0
      && area.x >= 0.0 && area.y >= 0.0 && area.width >= 0.0 && area.height >= 0.0
    }

    constructor ()
      ensures Valid()
      ensures canvas == Dims(0.0, 0.0) && currentImage.None? && !boxVisible
      ensures gesture == Gesture(false, false, 0.0, 0.0)
      ensures sel == Box(0.0, 0.0, 100.0, 100.0) && area == Box(0.0, 0.0, 0.0, 0.0)
    {
      canvas := Dims(0.0, 0.0);
      currentImage := None;
      boxVisible := false;
      gesture := Gesture(false, false, 0.0, 0.0);
      sel := Box(0.0, 0.0, 100.0, 100.0);
      area := Box(0.0, 0.0, 0.0, 0.0);
    }

    /** `resetEditor`: no image, a 400×400 canvas, the box hidden; the selection and the draw area are left as they were. */
    method ResetEditor()
      requires Valid()
      modifies this`currentImage, this`canvas, this`boxVisible
      ensures Valid()
      ensures currentImage.None? && canvas == Dims(400.0, 400.0) && !boxVisible
    {
      currentImage := None;
      canvas := Dims(400.0, 400.0);
      boxVisible := false;
    }

    /** `fitImageToCanvas`: the canvas takes the container's size and the draw area is the image's fit. */
    method FitImageToCanvas(img: Dims, container: Dims)
      requires Shaped()
      requires img.width > 0.0 && img.height > 0.0
      requires container.width >= 0.0 && container.height >= 0.0
      requires currentImage.Some? ==> currentImage.value == img
      modifies this`canvas, this`area
      ensures Valid()
      ensures canvas == container && area == FitArea(img, container)
    {
      var s := FitScale(img, container);
      var w, h := img.width * s, img.height * s;
      canvas := container;
      area := Box((container.width - w) / 2.0, (container.height - h) / 2.0, w, h);
    }

    /** `initializeSelection`: show the largest screen-shaped box that fits the draw area, centred. */
    method InitializeSelection(screen: Screen)
      requires Valid() && Usable(screen)
      modifies this`sel, this`boxVisible
      ensures Valid()
      ensures sel == InitialSelection(area, ScreenRatio(screen)) && boxVisible
      ensures Inside(sel, area) && sel.width == sel.height * ScreenRatio(screen)
    {
      var aspect := ScreenRatio(screen);
      var width := area.width;
      var height := width / aspect;
      if height > area.height {
        height := area.height;
        width := height * aspect;
      }
      width := RMin(width, area.width);
      height := RMin(height, area.height);
      boxVisible := true;
      sel := Box(area.x + (area.width - width) / 2.0, area.y + (area.height - height) / 2.0, width, height);
    }

    /** `loadImage`'s `onload`: keep the image, fit it, and seed the selection. */
    method LoadImage(img: Dims, container: Dims, screen: Screen)
      requires Valid() && Usable(screen)
      requires img.width > 0.0 && img.height > 0.0
      requires container.width >= 0.0 && container.height >= 0.0
      modifies this`currentImage, this`canvas, this`area, this`sel, this`boxVisible
      ensures Valid()
      ensures currentImage == Some(img) && canvas == container && area == FitArea(img, container)
      ensures sel == InitialSelection(area, ScreenRatio(screen)) && boxVisible
      ensures gesture == old(gesture)
    {
      currentImage := Some(img);
      FitImageToCanvas(img, container);
      InitializeSelection(screen);
    }

    /** `fitToScreen`: without an image nothing happens; otherwise re-fit to the container and reseed the selection. */
    method FitToScreen(container: Dims, screen: Screen)
      requires Valid() && Usable(screen)
      requires container.width >= 0.0 && container.height >= 0.0
      modifies this`canvas, this`area, this`sel, this`boxVisible
      ensures Valid()
      ensures old(currentImage).None? ==>
        canvas == old(canvas) && area == old(area) && sel == old(sel) && boxVisible == old(boxVisible)
      ensures old(currentImage).Some? ==>
        canvas == container && area == FitArea(currentImage.value, container)
        && sel == InitialSelection(area, ScreenRatio(screen)) && boxVisible
    {
      if currentImage.None? {
        return;
      }
      FitImageToCanvas(currentImage.value, container);
      InitializeSelection(screen);
    }

    /** `startDragging`: remember the cursor's offset from the box corner. */
    method StartDragging(clientX: real, clientY: real)
      modifies this`gesture
      ensures gesture == old(gesture).(isDragging := true, startX := clientX - sel.x, startY := clientY - sel.y)
    {
      gesture := gesture.(isDragging := true, startX := clientX - sel.x, startY := clientY - sel.y);
    }

    /** `dragSelection`: keep the anchor offset, clamped into the draw area; the size is unchanged. */
    method DragSelection(clientX: real, clientY: real)
      requires Valid()
      modifies this`sel
      ensures Valid()
      ensures !gesture.isDragging ==> sel == old(sel)
      ensures gesture.isDragging ==>
        sel == old(sel).(x := DragAxis(clientX, gesture.startX, area.x, area.width, old(sel).width),
                         y := DragAxis(clientY, gesture.startY, area.y, area.height, old(sel).height))
      ensures gesture.isDragging ==> sel.x >= area.x && sel.y >= area.y
      ensures gesture.isDragging && old(sel).width <= area.width && old(sel).height <= area.height ==> Inside(sel, area)
    {
      if !gesture.isDragging {
        return;
      }
      var newX := clientX - gesture.startX;
      var newY := clientY - gesture.startY;
      newX := RMax(area.x, RMin(newX, area.x + area.width - sel.width));
      newY := RMax(area.y, RMin(newY, area.y + area.height - sel.height));
      sel := sel.(x := newX, y := newY);
    }

    /** `startResizing`: remember the cursor. */
    method StartResizing(clientX: real, clientY: real)
      modifies this`gesture
      ensures gesture == old(gesture).(isResizing := true, startX := clientX, startY := clientY)
    {
      gesture := gesture.(isResizing := true, startX := clientX, startY := clientY);
    }

    /** `resizeSelection`: grow by the cursor's horizontal move since the anchor, then move the anchor to the cursor. */
    method ResizeSelection(clientX: real, clientY: real, screen: Screen)
      requires Valid() && Usable(screen)
      modifies this`sel, this`gesture
      ensures Valid()
      ensures !old(gesture).isResizing ==> sel == old(sel) && gesture == old(gesture)
      ensures old(gesture).isResizing ==>
        sel == Resized(old(sel), area, clientX - old(gesture).startX, ScreenRatio(screen))
        && gesture == old(gesture).(startX := clientX, startY := clientY)
    {
      if !gesture.isResizing {
        return;
      }
      var dx := clientX - gesture.startX;
      var ratio := ScreenRatio(screen);
      var newWidth := sel.width + dx;
      var newHeight := newWidth / ratio;
      newWidth := RMin(newWidth, area.x + area.width - sel.x);
      newHeight := RMin(newHeight, area.y + area.height - sel.y);
      sel := sel.(width := newWidth, height := newHeight);
      gesture := gesture.(startX := clientX, startY := clientY);
    }

    /** `mousedown` on the selection box: a handle starts a resize, anywhere else a drag. */
    method MouseDown(onHandle: bool, clientX: real, clientY: real)
      modifies this`gesture
      ensures onHandle ==> gesture == old(gesture).(isResizing := true, startX := clientX, startY := clientY)
      ensures !onHandle ==> gesture == old(gesture).(isDragging := true, startX := clientX - sel.x, startY := clientY - sel.y)
    {
      if onHandle {
        StartResizing(clientX, clientY);
      } else {
        StartDragging(clientX, clientY);
      }
    }

    /** The `mousemove` listener: drag when dragging, otherwise resize when resizing. */
    method MouseMove(clientX: real, clientY: real, screen: Screen)
      requires Valid() && Usable(screen)
      modifies this`sel, this`gesture
      ensures Valid()
      ensures old(gesture).isDragging ==>
        gesture == old(gesture)
        && sel == old(sel).(x := DragAxis(clientX, gesture.startX, area.x, area.width, old(sel).width),
                            y := DragAxis(clientY, gesture.startY, area.y, area.height, old(sel).height))
        && sel.x >= area.x && sel.y >= area.y
      ensures !old(gesture).isDragging && old(gesture).isResizing ==>
        sel == Resized(old(sel), area, clientX - old(gesture).startX, ScreenRatio(screen))
      ensures !old(gesture).isDragging && !old(gesture).isResizing ==> sel == old(sel) && gesture == old(gesture)
    {
      if gesture.isDragging {
        DragSelection(clientX, clientY);
      } else if gesture.isResizing {
        ResizeSelection(clientX, clientY, screen);
      }
    }

    /** `mouseup`: the gesture ends. */
    method MouseUp()
      modifies this`gesture
      ensures gesture == old(gesture).(isDragging := false, isResizing := false)
    {
      gesture := gesture.(isDragging := false, isResizing := false);
    }

    /** The crop `processImage` draws; nothing happens without an image. */
    method ProcessImage() returns (outcome: ProcessOutcome)
      requires Valid()
      ensures currentImage.None? <==> outcome == NoImage
      ensures currentImage.Some? && area.width > 0.0 && area.height > 0.0 ==>
        outcome == Cropped(CropOf(sel, area, currentImage.value))
      ensures outcome.Cropped? && Inside(sel, area) ==>
        Inside(outcome.crop, Box(0.0, 0.0, currentImage.value.width, currentImage.value.height))
    {
      if currentImage.None? {
        return NoImage;
      }
      if area.width == 0.0 || area.height == 0.0 {
        return DegenerateArea;
      }
      var img := currentImage.value;
      if Inside(sel, area) {
        CropInsideImage(sel, area, img);
      }
      return Cropped(CropOf(sel, area, img));
    }
  }
}
