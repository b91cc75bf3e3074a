/**
 * The icon editor's state machine (js/modules/imageEditor.js). The module
 * keeps its state in top-level variables that event handlers reassign; here
 * they are the fields of one `Editor` object, grouped into records (canvas
 * size, current image, gesture snapshot, selection box, draw area), and each
 * handler is a method. Canvas drawing and decoding are foreign: the raster a
 * load produces and the decoded pixels of the current image are passed in.
 */
module IconEditor {
  import opened Common
  import opened IconGeometry
  import opened IconPixels

  datatype Size = Size(width: int, height: int)

  /**
   * The gesture variables: `isDragging`, `isResizing`, the cursor position
   * at `mousedown` (`dragStartX/Y`) and the box corner or size recorded then
   * (`initialSelectionX/Y`, `initialSelectionWidth/Height`).
   */
  datatype Gesture = Gesture(isDragging: bool, isResizing: bool, startX: int, startY: int,
                             initialX: int, initialY: int, initialWidth: int, initialHeight: int)

  const IdleGesture := Gesture(false, false, 0, 0, 0, 0, 100, 100)

  /** What `processImage` ends with. */
  datatype ProcessOutcome =
    | NoImageLoaded                               // "no_image_loaded" notification
    | NoColorSelected                             // "pick_color" warning
    | EmptyDrawArea                               // "image_process_error"
    | Processed(crop: Rect, pixels: seq<byte>)    // the buffer encoded as PNG

  /** The colour `checkTransparentBackground` selects for an image that is already transparent. */
  const TransparentColor := Rgba(0, 0, 0, 0)

  /** The decision `checkTransparentBackground` takes on a snapshot. */
  ghost predicate HasTransparency(img: Raster)
    requires img.Sized()
  {
    AlreadyTransparent(TransparentPixels(img.data, img.height * img.width), img.height * img.width,
                       CountTransparent(img.data, EdgeSamples(img.width, img.height)), |EdgeSamples(img.width, img.height)|)
  }

  /** The colour `pickColor` stores for a sampled pixel: alpha is binarised at 128. */
  function PickedColor(r: byte, g: byte, b: byte, a: byte): (c: Rgba)
    ensures c.r == r && c.g == g && c.b == b
    ensures c.a == 0 <==> a < 128
    ensures c.a == 0 || c.a == 255
  {
    Rgba(r, g, b, if a < 128 then 0 else 255)
  }

  /** The pixels outside the draw area are more than a tenth of the canvas. */
  predicate MarginOverTenth(w: int, h: int, area: Rect)
  {
    10 * (h * w - area.width * area.height) > h * w
  }

  /** A canvas cleared outside the draw area is judged transparent as soon as the margin exceeds a tenth of it. */
  lemma MarginDecides(img: Raster, area: Rect)
    requires img.Sized() && Inside(area, Rect(0, 0, img.width, img.height)) && area.width >= 0 && area.height >= 0
    requires ClearOutside(img.data, img.width, img.height, area)
    ensures MarginOverTenth(img.width, img.height, area) ==> HasTransparency(img)
  {
    if MarginOverTenth(img.width, img.height, area) {
      MarginMakesTransparent(img.data, img.width, img.height, area);
    }
  }

  /**
   * A 1000×500 picture letterboxed in the 400×400 canvas is judged already
   * transparent whatever its own pixels are: half of the canvas is the
   * cleared margin around the draw area {0, 100, 400, 200}.
   */
  lemma LetterboxedImageIsTransparent(raster: Raster)
    requires raster.Sized() && raster.width == 400 && raster.height == 400
    requires ClearOutside(raster.data, 400, 400, FitDrawArea(1000, 500, 400, 400))
    ensures HasTransparency(raster)
  {
    FitWideExample();
    MarginMakesTransparent(raster.data, 400, 400, Rect(0, 100, 400, 200));
  }

  /**
   * The check as evidently intended: the same decision, taken on the draw
   * area's own pixels instead of the whole canvas.
   */
  ghost predicate DrawAreaHasTransparency(img: Raster, area: Rect)
    requires img.Sized() && area.width > 0 && area.height > 0
  {
    HasTransparency(Raster(area.width, area.height, Cropped(img.data, img.width, img.height, area)))
  }

  /** The corrected check never reports an image whose drawn pixels are all opaque, letterboxed or not. */
  lemma DrawAreaCheckKeepsOpaqueImages(img: Raster, area: Rect)
    requires img.Sized() && area.width > 0 && area.height > 0
    requires Inside(area, Rect(0, 0, img.width, img.height))
    requires forall y, x :: 0 <= y < img.height && 0 <= x < img.width && InArea(x, y, area) ==>
      Alpha(img.data, img.width, img.height, x, y) == 255
    ensures !DrawAreaHasTransparency(img, area)
  {
    var c := Cropped(img.data, img.width, img.height, area);
    forall p | 0 <= p < area.height * area.width ensures c[4 * p + 3] == 255 {
      CroppedAlpha(img.data, img.width, img.height, area, p);
    }
    OpaqueIsNotTransparent(c, area.width, area.height);
  }

  class Editor {
    var canvas: Size
    /** `currentImage` (its natural size), or `null`. */
    var currentImage: Option<Size>
    /** The `getImageData` snapshot of the whole canvas taken after drawing. */
    var imageData: Option<Raster>
    var selectedColor: Option<Rgba>
    var isColorPickMode: bool
    /** The colour-picker button is enabled. */
    var pickerEnabled: bool
    /** The selection box is displayed. */
    var boxVisible: bool
    var gesture: Gesture
    /** `selectionStartX/Y`, `selectionWidth/Height`. */
    var sel: Rect
    /** `imageDrawArea`. */
    var area: Rect

    /**
     * The canvas has no pixels: a load into an empty container resized it
     * and then failed, leaving the earlier snapshot, area and box behind.
     */
    predicate Blank()
      reads this
    {
      canvas.width == 0 || canvas.height == 0
    }

    /**
     * The invariant every handler keeps: the snapshot is a well-formed
     * buffer; and unless the canvas is blank, the draw area lies in the
     * canvas, the snapshot has the canvas's size, and once an image with a
     * non-empty draw area is loaded the selection box is a non-empty box
     * inside that area.
     */
    ghost predicate Valid()
      reads this
    {
      canvas.width >= 0 && canvas.height >= 0
      && (imageData.Some? ==> imageData.value.Sized())
      && (currentImage.Some? ==> currentImage.value.width > 0 && currentImage.value.height > 0 && imageData.Some?)
      && sel.width >= 0 && sel.height >= 0
      && area.width >= 0 && area.height >= 0
      && (!Blank() ==>
            (imageData.Some? ==> imageData.value.width == canvas.width && imageData.value.height == canvas.height)
            && Inside(area, Rect(0, 0, canvas.width, canvas.height))
            && (currentImage.Some? && area.width >= 1 && area.height >= 1 ==>
                  Inside(sel, area) && sel.width >= 1 && sel.height >= 1))
    }

    /** The state `resetEditor` establishes, which is how `openImageEditor` shows the editor. */
    ghost predicate IsReset()
      reads this
    {
      canvas == Size(400, 400) && currentImage.None? && imageData.None? && selectedColor.None?
      && !isColorPickMode && !pickerEnabled && !boxVisible
      && gesture == IdleGesture && sel == Rect(0, 0, 100, 100) && area == Rect(0, 0, 0, 0)
    }

    constructor ()
      ensures Valid() && IsReset()
    {
      canvas := Size(400, 400);
      currentImage, imageData, selectedColor := None, None, None;
      isColorPickMode, pickerEnabled, boxVisible := false, false, false;
      gesture := IdleGesture;
      sel := Rect(0, 0, 100, 100);
      area := Rect(0, 0, 0, 0);
    }

    /** `resetEditor`. */
    method ResetEditor()
      modifies this
      ensures Valid() && IsReset()
    {
      canvas := Size(400, 400);
      boxVisible := false;
      currentImage, imageData, selectedColor := None, None, None;
      isColorPickMode := false;
      gesture := IdleGesture;
      sel := Rect(0, 0, 100, 100);
      area := Rect(0, 0, 0, 0);
      pickerEnabled := false;
    }

    /**
     * `loadImageToCanvas`: size the canvas to its container, compute the draw
     * area, keep the drawn raster, enable the picker, run the transparency
     * check, and seed the square selection. An empty container (width or
     * height 0) makes `getImageData` throw right after the canvas is resized;
     * the catch only reports the failure, so everything else is kept.
     */
    method LoadImageToCanvas(image: Size, parent: Option<(nat, nat)>, raster: Raster)
      requires Valid()
      requires image.width > 0 && image.height > 0
      requires raster.Sized() && (raster.width, raster.height) == ContainerSize(parent)
      // the canvas is cleared before the image is drawn into the draw area
      requires ClearOutside(raster.data, raster.width, raster.height,
                            FitDrawArea(image.width, image.height, raster.width, raster.height))
      modifies this
      ensures Valid()
      ensures canvas == Size(ContainerSize(parent).0, ContainerSize(parent).1)
      ensures isColorPickMode == old(isColorPickMode) && gesture == old(gesture)
      // the failed load into an empty container
      ensures Blank() ==>
        currentImage == old(currentImage) && imageData == old(imageData) && area == old(area) && sel == old(sel)
        && boxVisible == old(boxVisible) && pickerEnabled == old(pickerEnabled) && selectedColor == old(selectedColor)
      ensures !Blank() ==>
        currentImage == Some(image) && imageData == Some(raster)
        && area == FitDrawArea(image.width, image.height, canvas.width, canvas.height)
        && sel == SeedSelection(area) && boxVisible
        && pickerEnabled == !HasTransparency(raster)
        && selectedColor == (if HasTransparency(raster) then Some(TransparentColor) else old(selectedColor))
      // a cleared margin of more than a tenth of the canvas alone selects the transparent colour
      ensures !Blank() && MarginOverTenth(canvas.width, canvas.height, area) ==>
        !pickerEnabled && selectedColor == Some(TransparentColor)
    {
      var (cw, ch) := ContainerSize(parent);
      canvas := Size(cw, ch);
      if cw == 0 || ch == 0 {
        return;
      }
      DrawIntoCanvas(image, raster);
    }

    /**
     * The rest of `loadImageToCanvas` once the canvas has pixels: take the
     * snapshot, record the image and its draw area, enable the picker, run
     * the transparency check and seed the selection.
     */
    method DrawIntoCanvas(image: Size, raster: Raster)
      requires !Blank() && image.width > 0 && image.height > 0
      requires raster.Sized() && raster.width == canvas.width && raster.height == canvas.height
      requires ClearOutside(raster.data, raster.width, raster.height,
                            FitDrawArea(image.width, image.height, raster.width, raster.height))
      modifies this`imageData, this`currentImage, this`area, this`pickerEnabled, this`selectedColor,
               this`sel, this`boxVisible
      ensures Valid()
      ensures currentImage == Some(image) && imageData == Some(raster)
      ensures area == FitDrawArea(image.width, image.height, canvas.width, canvas.height)
      ensures sel == SeedSelection(area) && boxVisible
      ensures pickerEnabled == !HasTransparency(raster)
      ensures selectedColor == (if HasTransparency(raster) then Some(TransparentColor) else old(selectedColor))
      ensures MarginOverTenth(canvas.width, canvas.height, area) ==> !pickerEnabled && selectedColor == Some(TransparentColor)
    {
      var drawArea := FitDrawArea(image.width, image.height, canvas.width, canvas.height);
      imageData := Some(raster);
      currentImage := Some(image);
      area := drawArea;
      pickerEnabled := true;
      MarginDecides(raster, drawArea);
      CheckTransparentBackground();
      sel := SeedSelection(drawArea);
      boxVisible := true;
    }

    /**
     * `checkTransparentBackground`: when the snapshot is already transparent
     * enough, select the transparent colour and disable the picker.
     */
    method CheckTransparentBackground()
      requires imageData.Some? && imageData.value.Sized()
      modifies this`selectedColor, this`pickerEnabled
      ensures selectedColor == (if HasTransparency(imageData.value) then Some(TransparentColor) else old(selectedColor))
      ensures pickerEnabled == (if HasTransparency(imageData.value) then false else old(pickerEnabled))
    {
      var data, w, h := imageData.value.data, imageData.value.width, imageData.value.height;
      var edges := CollectEdgeSamples(w, h);
      var transparentEdges := CountTransparentSamples(data, edges);
      assert |data| % 4 == 0 && |data| / 4 == h * w;
      var transparentPixels := CountTransparentPixels(data);
      if AlreadyTransparent(transparentPixels, h * w, transparentEdges, |edges|) {
        pickerEnabled := false;
        selectedColor := Some(TransparentColor);
      }
    }

    /**
     * `updateSelectionBox`: shrink the box to the canvas and clamp its corner
     * into it. (No handler of the module calls it.)
     */
    method UpdateSelectionBox()
      requires Valid()
      modifies this`sel
      ensures Valid()
      ensures Inside(sel, Rect(0, 0, canvas.width, canvas.height))
      ensures Inside(old(sel), Rect(0, 0, canvas.width, canvas.height)) ==> sel == old(sel)
    {
      var w := Min(sel.width, canvas.width);
      var h := Min(sel.height, canvas.height);
      sel := Rect(Clamp(sel.x, 0, canvas.width - w), Clamp(sel.y, 0, canvas.height - h), w, h);
    }

    /** `startDragging`: remember the cursor and the box corner, clamped to the canvas. */
    method StartDragging(clientX: int, clientY: int)
      requires Valid()
      modifies this`gesture
      ensures Valid()
      ensures gesture == old(gesture).(isDragging := true, startX := clientX, startY := clientY,
                                       initialX := StartAxis(sel.x, canvas.width, sel.width),
                                       initialY := StartAxis(sel.y, canvas.height, sel.height))
      // a box inside the draw area of a non-blank canvas starts its gesture from where it is
      ensures !Blank() && Inside(sel, area) ==> gesture.initialX == sel.x && gesture.initialY == sel.y
    {
      gesture := gesture.(isDragging := true, startX := clientX, startY := clientY,
                          initialX := StartAxis(sel.x, canvas.width, sel.width),
                          initialY := StartAxis(sel.y, canvas.height, sel.height));
    }

    /** The box `dragSelection` computes for the cursor at (clientX, clientY). */
    ghost function Dragged(clientX: int, clientY: int): Rect
      reads this
    {
      Rect(DragAxis(gesture.initialX, gesture.startX, clientX, area.x, area.width, sel.width),
           DragAxis(gesture.initialY, gesture.startY, clientY, area.y, area.height, sel.height),
           sel.width, sel.height)
    }

    /** `dragSelection`: move the box with the cursor, clamped to the draw area; its size is kept. */
    method DragSelection(clientX: int, clientY: int)
      requires Valid()
      modifies this`sel
      ensures Valid()
      ensures sel == old(Dragged(clientX, clientY))
      ensures old(sel).width <= area.width && old(sel).height <= area.height ==> Inside(sel, area)
    {
      var x := DragAxis(gesture.initialX, gesture.startX, clientX, area.x, area.width, sel.width);
      var y := DragAxis(gesture.initialY, gesture.startY, clientY, area.y, area.height, sel.height);
      sel := Rect(x, y, sel.width, sel.height);
    }

    /** `startResizing`: remember the cursor and the box size. */
    method StartResizing(clientX: int, clientY: int)
      requires Valid()
      modifies this`gesture
      ensures Valid()
      ensures gesture == old(gesture).(isResizing := true, startX := clientX, startY := clientY,
                                       initialWidth := sel.width, initialHeight := sel.height)
    {
      gesture := gesture.(isResizing := true, startX := clientX, startY := clientY,
                          initialWidth := sel.width, initialHeight := sel.height);
    }

    /** The box `resizeSelection` computes for the cursor at (clientX, clientY). */
    ghost function Resized(clientX: int, clientY: int): Rect
      reads this
    {
      var side := ResizeSide(gesture.initialWidth, clientX - gesture.startX, clientY - gesture.startY, sel.x, sel.y, area);
      Rect(sel.x, sel.y, side, side)
    }

    /** `resizeSelection`: a square box whose corner stays put and whose side follows the larger cursor displacement. */
    method ResizeSelection(clientX: int, clientY: int)
      requires Valid()
      modifies this`sel
      ensures Valid()
      ensures sel == old(Resized(clientX, clientY))
      ensures area.x <= sel.x && area.y <= sel.y && Available(sel.x, sel.y, area) >= 1 ==> Inside(sel, area)
    {
      var side := ResizeSide(gesture.initialWidth, clientX - gesture.startX, clientY - gesture.startY, sel.x, sel.y, area);
      sel := Rect(sel.x, sel.y, side, side);
    }

    /** One `mousemove` listener: drag when dragging, otherwise resize when resizing. */
    method OnMouseMove(clientX: int, clientY: int)
      requires Valid()
      modifies this`sel
      ensures Valid()
      ensures sel == if gesture.isDragging then old(Dragged(clientX, clientY))
                     else if gesture.isResizing then old(Resized(clientX, clientY))
                     else old(sel)
    {
      if gesture.isDragging {
        DragSelection(clientX, clientY);
      } else if gesture.isResizing {
        ResizeSelection(clientX, clientY);
      }
    }

    /**
     * A cursor move as the page sees it: the module registers the same
     * `mousemove` listener twice, so both copies run. The result is that of a
     * single run, because the updates depend only on the gesture-start
     * snapshot and the cursor.
     */
    method MouseMove(clientX: int, clientY: int)
      requires Valid()
      modifies this`sel
      ensures Valid()
      ensures sel == if gesture.isDragging then old(Dragged(clientX, clientY))
                     else if gesture.isResizing then old(Resized(clientX, clientY))
                     else old(sel)
    {
      OnMouseMove(clientX, clientY);
      OnMouseMove(clientX, clientY);
    }

    /** `mouseup` (both registered copies): the gesture ends. */
    method MouseUp()
      requires Valid()
      modifies this`gesture
      ensures Valid() && gesture == old(gesture).(isDragging := false, isResizing := false)
    {
      gesture := gesture.(isDragging := false, isResizing := false);
      gesture := gesture.(isDragging := false, isResizing := false);
    }

    /**
     * `mousedown` on the selection box at (offsetX, offsetY) inside its
     * rendered `boxWidth`×`boxHeight` element: within 20 px of the
     * bottom-right corner it starts a resize, anywhere else a drag.
     */
    method MouseDown(offsetX: int, offsetY: int, boxWidth: int, boxHeight: int, clientX: int, clientY: int)
      requires Valid()
      modifies this`gesture
      ensures Valid() && gesture.startX == clientX && gesture.startY == clientY
      ensures offsetX > boxWidth - 20 && offsetY > boxHeight - 20 ==>
        gesture.isResizing && gesture.isDragging == old(gesture).isDragging
        && gesture.initialWidth == sel.width && gesture.initialHeight == sel.height
      ensures !(offsetX > boxWidth - 20 && offsetY > boxHeight - 20) ==>
        gesture.isDragging && gesture.isResizing == old(gesture).isResizing
        && gesture.initialX == StartAxis(sel.x, canvas.width, sel.width)
        && gesture.initialY == StartAxis(sel.y, canvas.height, sel.height)
    {
      if offsetX > boxWidth - 20 && offsetY > boxHeight - 20 {
        StartResizing(clientX, clientY);
      } else {
        StartDragging(clientX, clientY);
      }
    }

    /** `toggleColorPickMode`: flip pick mode; the selection box is hidden while picking. */
    method ToggleColorPickMode()
      requires Valid()
      modifies this`isColorPickMode, this`boxVisible
      ensures Valid() && isColorPickMode == !old(isColorPickMode) && boxVisible == !isColorPickMode
    {
      isColorPickMode := !isColorPickMode;
      boxVisible := !isColorPickMode;
    }

    /**
     * A click on the canvas at canvas pixel (x, y): the listener runs
     * `pickColor` in pick mode with an image loaded; a click inside the canvas
     * stores the pixel's colour and leaves pick mode, and a transparent pick
     * shows the preview (returned as the buffer drawn over the checkerboard).
     * A click outside the canvas changes nothing.
     */
    method CanvasClick(x: int, y: int) returns (preview: Option<seq<byte>>)
      requires Valid()
      modifies this`selectedColor, this`isColorPickMode, this`boxVisible
      ensures Valid()
      ensures var picks := old(isColorPickMode) && currentImage.Some? && imageData.Some?
                           && 0 <= x < canvas.width && 0 <= y < canvas.height;
        if picks then
          var d, i := imageData.value.data, (y * canvas.width + x) * 4;
          0 <= i && i + 3 < |d|
          && selectedColor == Some(PickedColor(d[i], d[i + 1], d[i + 2], d[i + 3]))
          && !isColorPickMode && boxVisible
          && preview == (if d[i + 3] < 128 then Some(Previewed(d, selectedColor.value)) else None)
        else
          selectedColor == old(selectedColor) && isColorPickMode == old(isColorPickMode)
          && boxVisible == old(boxVisible) && preview == None
    {
      preview := None;
      if isColorPickMode && currentImage.Some? && imageData.Some? {
        if 0 <= x < canvas.width && 0 <= y < canvas.height {
          var d := imageData.value.data;
          Arith.RowMajor(y, x, canvas.width, canvas.height);
          var i := (y * canvas.width + x) * 4;
          var color := PickedColor(d[i], d[i + 1], d[i + 2], d[i + 3]);
          selectedColor := Some(color);
          if color.a == 0 {
            preview := Some(Previewed(d, color));
          }
          ToggleColorPickMode();
        }
      }
    }

    /**
     * `processImage` given the decoded pixels of the current image: check
     * the guards, crop the selection (mapped into source pixels) into a new
     * buffer, and key out the selected colour in place when it is transparent.
     */
    method ProcessImage(source: seq<byte>) returns (outcome: ProcessOutcome)
      requires Valid()
      requires currentImage.Some? ==> |source| == 4 * (currentImage.value.height * currentImage.value.width)
      ensures currentImage.None? ==> outcome == NoImageLoaded
      ensures currentImage.Some? && selectedColor.None? ==> outcome == NoColorSelected
      ensures currentImage.Some? && selectedColor.Some? && (area.width == 0 || area.height == 0) ==> outcome == EmptyDrawArea
      ensures currentImage.Some? && selectedColor.Some? && area.width > 0 && area.height > 0 ==>
        var img := currentImage.value;
        var crop := CropRect(sel, area, img.width, img.height);
        var cut := Cropped(source, img.width, img.height, crop);
        outcome == Processed(crop, if selectedColor.value.a == 0 then Keyed(cut, selectedColor.value) else cut)
    {
      if currentImage.None? {
        return NoImageLoaded;
      }
      if selectedColor.None? {
        return NoColorSelected;
      }
      if area.width == 0 || area.height == 0 {
        return EmptyDrawArea;
      }
      var img := currentImage.value;
      var crop := CropRect(sel, area, img.width, img.height);
      var cut := Cropped(source, img.width, img.height, crop);
      var data := new byte[|cut|](i requires 0 <= i < |cut| => cut[i]);
      assert data[..] == cut;
      if selectedColor.value.a == 0 {
        KeyOut(data, crop.width, crop.height, selectedColor.value);
      }
      return Processed(crop, data[..]);
    }
  }
}
