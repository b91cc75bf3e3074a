# Desktop4Chrome new-tab rules, modelled in Dafny

Desktop4Chrome replaces the browser's new-tab page with a desktop: a grid of
shortcuts, one or two clocks for chosen cities with a weather widget, a
background image, and editors for icons and backgrounds. Most of its code wires
the DOM. Inside it sit several self-contained rule sets, and this project
models those rule sets and proves what they promise:

- **Icon editor** (`IconGeometry`, `IconPixels`, `IconEditor`), from
  `js/modules/imageEditor.js`:
  - the integer draw area an image gets in the canvas;
  - the square selection it seeds;
  - the drag and resize gestures, clamped to the draw area;
  - the colour picker;
  - the transparency check over edge samples and all pixels;
  - the crop into source pixels;
  - the in-place alpha keying of `processImage`.

  The editor's module variables are the fields of the class
  `IconEditor.Editor`, and each handler is a method.
- **Background editor** (`BackgroundEditor`), from
  `js/modules/backgroundEditor.js`. It is the `real`-valued sibling of the icon
  editor:
  - a fit that never upscales;
  - a screen-shaped selection;
  - an incremental resize that clips each side independently;
  - an unrounded crop.
- **Shortcut grid** (`ShortcutGrid`, `Shortcuts`), from `js/modules/shortcuts.js`:
  - the 18-cell placement with write-back of positions;
  - the drag-and-drop exchange;
  - form validation;
  - add, replace and delete;
  - the URL-input list;
  - the handlers around `openEditModal`.
- **City list** (`Cities`), from `js/modules/cities.js`:
  - moving a city, with the remap of the displayed indices;
  - adding a city with a normalised id;
  - search;
  - saving;
  - the one-or-two displayed cities and their dots.
- **Date and time formats** (`DateTimeFormat`), from
  `js/modules/dateTimeFormat.js`: first-occurrence token replacement for every
  offered format, the 12-hour clock, and the format toggle.
- **Weather** (`Weather`), from `js/modules/weather.js`:
  - the two-hour cache;
  - the forced refresh of every cached city;
  - the mock record generator;
  - the icon mapping;
  - the rule that hides the widget.
- **Smaller rule sets:**
  - `Utils` (`js/modules/utils.js`): the modal stack, near-white keying, the
    `i18n:` prefix rule and `deepClone`.
  - `I18n` (`js/modules/i18n/index.js`): translation lookup, `{param}`
    substitution, the language guard and the HTML attribute rewrite.
  - `Storage` (`js/modules/storage.js`): `initStorage` over a key-value map,
    the export record and import validation.
  - `Ui` (`js/modules/ui.js`): resize-to-screen and the compression ladder.
  - `CoreEvents` (`js/modules/core.js`): the ESC handler and the click and
    double-click routing.
  - `Support` (`js/modules/support.js`): the page-view counter.

Shared helpers:
- `Common`: `Option`, `Min`/`Max` and small arithmetic lemmas.
- `Text`: JavaScript's `replace`, `trim`, `padStart` and ASCII `toLowerCase` on
  strings.
- `Json`: JavaScript values with their truthiness, and `||`.

Module-level state that handlers reassign becomes a class whose methods state
the whole new state. Examples are `IconEditor.Editor`,
`BackgroundEditor.Editor`, `Shortcuts.Board`, `Cities.CityList`,
`Weather.Store`, `Utils.ModalManager`, `I18n.Locale`, `Storage.Store` and
`CoreEvents.Page`. Each such method is proved against a function that states
the rule, and the rule's properties are proved as lemmas.

Loops that update buffers in place stay loops over arrays:
- `IconPixels.KeyOut`, the nested key pass;
- `Utils.MakeWhiteTransparent`;
- the counting loops of the transparency check.

Canvas, fetch, Intl and `chrome.*` calls become inputs:
- a pixel buffer;
- a fetch outcome;
- date and time parts;
- an encoded-length oracle;
- a storage map.

The model follows the code as written:
- the icon editor's fit may upscale a small image to fill the canvas;
- the 'MMM' date formats always insert the Chinese month name;
- every mock weather widget shows the sun icon: a widget is always newly created, because the only caller of `updateCityWeatherDisplay` passes a fresh container, so its refresh branch, which would show the condition's icon, is never reached.

## Model

| member | source | states |
|---|---|---|
| IconGeometry.FitDrawArea | js/modules/imageEditor.js:706-740 | The draw area lies in the canvas and is centred to within one pixel. A nearly square image (100·\|w−h\| < h) gets a min(cw,ch) square. A wider image spans the full width, and its height is the exact floor of cw·ih/iw; a taller one spans the full height, with width ⌊ch·iw/ih⌋. The source floors a floating-point product instead, which can be one pixel lower (see Left out). |
| IconGeometry.FitWide | js/modules/imageEditor.js:720-729 | Full width, and height = ⌊cw·ih/iw⌋ as an exact rational floor (bracketed by the two products), centred vertically to within one pixel. The source's floating-point floor can be one lower. |
| IconGeometry.FitTall | js/modules/imageEditor.js:730-739 | Full height, and width = ⌊ch·iw/ih⌋ as an exact rational floor, centred horizontally to within one pixel. The source's floating-point floor can be one lower. |
| IconGeometry.FitWideExample | js/modules/imageEditor.js:706-740 | A 1000×500 image in a 400×400 canvas is drawn at {0, 100, 400, 200}. |
| IconGeometry.SeedSelection | js/modules/imageEditor.js:779-800 | The seeded selection is a square of side min(drawW, drawH), inside the draw area, centred to within one pixel. |
| IconGeometry.DragAxis | js/modules/imageEditor.js:957-980 | The dragged coordinate stays between drawX and max(drawX, drawX+drawW−selW). It equals initial+delta when that is in range, drawX when that is below, and the upper bound max(drawX, drawX+drawW−selW) when that is above. |
| IconGeometry.ResizeSide | js/modules/imageEditor.js:1024-1050 | The new side never exceeds the room left in the draw area (when there is any) and is never below min(20, room). It equals initial+max(dx,dy) when that lies between 20 and the room. |
| IconGeometry.CropAxisInside | js/modules/imageEditor.js:1310-1335 | On one axis, the floored source offset plus the clamped source length stays within the image. |
| IconGeometry.CropInsideImage | js/modules/imageEditor.js:1310-1335 | A selection inside the draw area maps to a crop rectangle inside the image, with source x = ⌊(selX−drawX)·iw/drawW⌋ as an exact rational floor, and likewise for y. |
| IconEditor.PickedColor | js/modules/imageEditor.js:1134-1139 | The picked colour keeps r, g and b. Alpha becomes 0 exactly when it was below 128, and 255 otherwise. |
| IconEditor.MarginDecides | js/modules/imageEditor.js:745-750 | A canvas cleared outside the draw area is judged transparent once the margin exceeds a tenth of it. |
| IconEditor.LetterboxedImageIsTransparent | js/modules/imageEditor.js:745-750 | Any 1000×500 image loaded into a 400×400 canvas, fully opaque or not, is judged already transparent, because half the canvas is the cleared margin. |
| IconEditor.DrawAreaCheckKeepsOpaqueImages | js/modules/imageEditor.js:853-874 | The corrected check, run on the draw area's own pixels, never reports an image whose drawn pixels are all opaque. |
| IconEditor.Editor.constructor | js/modules/imageEditor.js:340-360 | The editor starts in the reset state with its invariant established. |
| IconEditor.Editor.ResetEditor | js/modules/imageEditor.js:340-360 | The editor returns to the reset state: no image, no colour, no gesture. |
| IconEditor.Editor.LoadImageToCanvas | js/modules/imageEditor.js:682-800 | The canvas takes the container size (400×400 without one) and the draw area is the fit. The raster is cleared outside the draw area. The selection is the seeded square. The picker is enabled and the colour kept unless the raster is already transparent, in which case the colour becomes {0,0,0,0}. In particular, a cleared margin of more than a tenth of the canvas alone disables the picker and selects {0,0,0,0}. An empty container (width or height 0) makes `getImageData` throw after the canvas is resized: only the canvas size changes, and the image, snapshot, area, box, picker and colour are kept. Also lines 808-810. |
| IconEditor.Editor.DrawIntoCanvas | js/modules/imageEditor.js:745-800 | On a canvas with pixels: the snapshot and image are recorded, the area is the fit, the box is the seeded square, and the picker and colour follow the transparency check, with a cleared margin over a tenth forcing {0,0,0,0}. |
| IconEditor.Editor.CheckTransparentBackground | js/modules/imageEditor.js:817-887 | When more than 10% of all pixels or more than 30% of the edge samples have alpha below 250, the colour becomes {0,0,0,0} and the picker is disabled. Otherwise nothing changes. |
| IconEditor.Editor.UpdateSelectionBox | js/modules/imageEditor.js:902-926 | The box is shrunk and clamped into the canvas; a box already inside it is unchanged. |
| IconEditor.Editor.StartDragging | js/modules/imageEditor.js:928-951 | The drag flag and the cursor are recorded, with the box corner clamped to the canvas as the gesture start; a box inside the draw area of a non-blank canvas starts from where it is. |
| IconEditor.Editor.DragSelection | js/modules/imageEditor.js:953-998 | The box moves to the clamped position computed from the gesture-start snapshot, and its size is kept. A box no larger than the draw area ends inside it. |
| IconEditor.Editor.StartResizing | js/modules/imageEditor.js:1000-1018 | The resize flag, the cursor and the box size are recorded. |
| IconEditor.Editor.ResizeSelection | js/modules/imageEditor.js:1020-1075 | The box stays square with its corner fixed, sized from the snapshot. It ends inside the draw area whenever room remains. |
| IconEditor.Editor.OnMouseMove | js/modules/imageEditor.js:76-83 | A move drags when dragging, otherwise resizes when resizing, otherwise changes nothing. |
| IconEditor.Editor.MouseMove | js/modules/imageEditor.js:76-83 | Both registered move listeners run, and the result is that of one run. The update depends only on the snapshot and the cursor. Also lines 246-254. |
| IconEditor.Editor.MouseUp | js/modules/imageEditor.js:84-87 | Both gesture flags are cleared and nothing else changes. Also lines 255-258. |
| IconEditor.Editor.MouseDown | js/modules/imageEditor.js:236-245 | A press within 20 px of the bottom-right corner starts a resize; anywhere else starts a drag. |
| IconEditor.Editor.ToggleColorPickMode | js/modules/imageEditor.js:1077-1118 | Pick mode flips, and the selection box is hidden exactly while picking. |
| IconEditor.Editor.CanvasClick | js/modules/imageEditor.js:1120-1156 | The click acts only in pick mode with an image loaded and the point inside the canvas. It then stores the binarised colour and leaves pick mode. A transparent pick returns the preview; any other click changes nothing. Also lines 220-224. |
| IconEditor.Editor.ProcessImage | js/modules/imageEditor.js:1274-1382 | The process aborts without an image, without a colour, or with an empty draw area. Otherwise the result is the crop of the selection mapped into source pixels, keyed when the colour's alpha is 0. |
| IconPixels.KeyBytesAt | js/modules/imageEditor.js:1357-1380 | The key pass keeps r, g and b of each pixel and sets alpha 0 exactly for pixels whose squared distance to the colour is below 900. |
| IconPixels.KeyedPixel | js/modules/imageEditor.js:1357-1380 | Per pixel: colour kept, alpha 0 iff close to the colour or already 0, and alpha kept when not close. |
| IconPixels.KeyedIdempotent | js/modules/imageEditor.js:1357-1380 | Keying twice gives the same buffer as keying once. |
| IconPixels.PreviewCoversKey | js/modules/imageEditor.js:1200-1224 | Every pixel the key pass clears (distance < 30) is also cleared by the preview (every channel within 30). Also lines 1365-1376. |
| IconPixels.PreviewLooserThanKey | js/modules/imageEditor.js:1200-1224 | The rules differ: (30,30,30) against black is cleared by the preview but kept by the key pass. Also lines 1365-1376. |
| IconPixels.KeyOut | js/modules/imageEditor.js:1357-1380 | The nested row/column loop leaves exactly the keyed buffer. |
| IconPixels.EdgeSamples | js/modules/imageEditor.js:828-852 | There are 2w + 2·max(0, h−2) edge samples. |
| IconPixels.EdgeSamplesInside | js/modules/imageEditor.js:828-852 | For a non-empty image every edge sample is the alpha byte of a pixel inside the buffer. |
| IconPixels.OpaqueIsNotTransparent | js/modules/imageEditor.js:853-887 | A buffer whose every pixel is opaque is never judged already transparent. On the canvas this holds only when the image fills it: the cleared margins count as transparent (see MarginMakesTransparent). |
| IconPixels.MarginMakesTransparent | js/modules/imageEditor.js:853-874 | When the canvas is cleared outside the draw area and that margin exceeds a tenth of the canvas, the check reports the canvas as already transparent, whatever the image's pixels are. |
| IconPixels.TransparentRows | js/modules/imageEditor.js:863-868 | The pixel count over the first k rows is at least their pixels minus the draw-area pixels among them. |
| IconPixels.TransparentRow | js/modules/imageEditor.js:863-868 | One row adds at least its pixels outside the draw area to the count. |
| IconPixels.CroppedAlpha | js/modules/imageEditor.js:1339-1347 | Alpha byte p of a crop inside the image is the image's alpha at the matching pixel. |
| IconPixels.CollectEdgeSamples | js/modules/imageEditor.js:828-852 | The four collecting loops produce exactly the edge samples, in order. |
| IconPixels.CountTransparentSamples | js/modules/imageEditor.js:853-862 | The loop counts the transparent samples; an index outside the buffer never counts. |
| IconPixels.CountTransparentPixels | js/modules/imageEditor.js:863-868 | The loop counts the pixels whose alpha is below 250. |
| IconPixels.Cropped | js/modules/imageEditor.js:1336-1350 | The cropped buffer has 4·w·h bytes for the crop's size. |
| BackgroundEditor.ScreenRatio | js/modules/backgroundEditor.js:234-238 | The screen ratio is positive and is innerWidth / (innerHeight − 80). Also line 323. |
| BackgroundEditor.FitScale | js/modules/backgroundEditor.js:198-200 | The scale is at most 1, the scaled image fits the container, and one side touches it unless the scale is 1. |
| BackgroundEditor.FitArea | js/modules/backgroundEditor.js:191-224 | The draw area never exceeds the image's size, keeps its aspect ratio, and lies centred in the container. It fills one side unless the image is drawn at natural size. |
| BackgroundEditor.FitAreaExample | js/modules/backgroundEditor.js:198-224 | A 1000×500 image in a 400×400 container is drawn at {0, 100, 400, 200}. |
| BackgroundEditor.FitNeverUpscales | js/modules/backgroundEditor.js:198-224 | An image smaller than the container is drawn at its natural size. |
| BackgroundEditor.InitialSelection | js/modules/backgroundEditor.js:230-272 | The selection is the largest screen-shaped box in the draw area, centred and inside it. |
| BackgroundEditor.DragAxis | js/modules/backgroundEditor.js:284-299 | A dragged coordinate never goes before the area's start, and stays before its end when the box fits. It is the cursor minus the anchor when that is in range, the area's start when that is below, and max(start, end − size) when that is above. |
| BackgroundEditor.Resized | js/modules/backgroundEditor.js:315-340 | The corner is kept and width and height are clipped to the area independently. Width = selW + dx and height = width / ratio when not clipped. |
| BackgroundEditor.ResizeCanInvert | js/modules/backgroundEditor.js:315-340 | No lower bound is enforced: moving 80 px left from a 50 px box gives width −30. |
| BackgroundEditor.CropOfWholeArea | js/modules/backgroundEditor.js:393-407 | Selecting the whole draw area crops the whole image. |
| BackgroundEditor.CropInsideImage | js/modules/backgroundEditor.js:393-407 | A selection inside the draw area crops a rectangle inside the image. |
| BackgroundEditor.Editor.constructor | js/modules/backgroundEditor.js:11-29 | The module's initial state: 100×100 selection, empty draw area, no image. |
| BackgroundEditor.Editor.ResetEditor | js/modules/backgroundEditor.js:155-166 | The image is cleared, the canvas becomes 400×400 and the box is hidden. |
| BackgroundEditor.Editor.FitImageToCanvas | js/modules/backgroundEditor.js:191-228 | The canvas takes the container size and the draw area is the fit. |
| BackgroundEditor.Editor.InitializeSelection | js/modules/backgroundEditor.js:230-272 | The selection becomes the initial screen-shaped box and is shown. |
| BackgroundEditor.Editor.LoadImage | js/modules/backgroundEditor.js:172-190 | On load the image is kept, fitted and given the initial selection. |
| BackgroundEditor.Editor.FitToScreen | js/modules/backgroundEditor.js:352-372 | Without an image nothing changes; otherwise the image is re-fitted and the selection re-seeded. |
| BackgroundEditor.Editor.StartDragging | js/modules/backgroundEditor.js:274-282 | The anchor offset clientX − selX (and likewise for y) is stored and dragging starts. |
| BackgroundEditor.Editor.DragSelection | js/modules/backgroundEditor.js:284-303 | The position is clamped as in DragAxis and the size is kept. A box that fits ends inside the area. |
| BackgroundEditor.Editor.StartResizing | js/modules/backgroundEditor.js:305-313 | The cursor is stored and resizing starts. |
| BackgroundEditor.Editor.ResizeSelection | js/modules/backgroundEditor.js:315-343 | The box becomes the resized box and the anchor moves to the cursor; without a resize nothing changes. |
| BackgroundEditor.Editor.MouseDown | js/modules/backgroundEditor.js:92-99 | A press on the handle starts a resize; anywhere else starts a drag. |
| BackgroundEditor.Editor.MouseMove | js/modules/backgroundEditor.js:103-109 | A move drags when dragging: both coordinates become the DragAxis clamp of cursor minus anchor, and the size is kept. Otherwise it resizes when resizing, and otherwise nothing changes. |
| BackgroundEditor.Editor.MouseUp | js/modules/backgroundEditor.js:111-114 | Both flags are cleared. |
| BackgroundEditor.Editor.ProcessImage | js/modules/backgroundEditor.js:392-407 | Without an image the process returns silently. With a non-empty draw area the crop is the unrounded mapping of the selection, inside the image when the selection is inside the area. A zero-size draw area is reported apart (see Left out). |
| ShortcutGrid.EmptyGrid | js/modules/shortcuts.js:478 | The grid has 18 empty cells. |
| ShortcutGrid.FirstEmpty | js/modules/shortcuts.js:486 | The lowest empty cell is found, or −1 exactly when the grid is full. |
| ShortcutGrid.Layout | js/modules/shortcuts.js:478-494 | Placement yields 18 cells and a list of the same length. |
| ShortcutGrid.LayoutOnlyAssignsPositions | js/modules/shortcuts.js:478-494 | Placement changes only `position` fields, and only by assigning a free cell to a shortcut without an explicit one. |
| ShortcutGrid.LayoutShowsOwnPosition | js/modules/shortcuts.js:478-494 | Every filled cell shows a shortcut whose position (after write-back) is that cell. |
| ShortcutGrid.LayoutPrefixFilled | js/modules/shortcuts.js:478-494 | A cell filled by the first k shortcuts stays filled. |
| ShortcutGrid.LayoutExplicitShown | js/modules/shortcuts.js:478-494 | A shortcut naming a cell below 18 that no later shortcut names is shown there; a later one with the same cell overwrites it. |
| ShortcutGrid.LayoutUnplacedMeansFull | js/modules/shortcuts.js:484-492 | A shortcut left without a cell means the grid was full. |
| ShortcutGrid.LayoutSequential | js/modules/shortcuts.js:484-492 | Shortcuts that name no cell fill cells 0, 1, 2, … in list order. |
| ShortcutGrid.FindAt | js/modules/shortcuts.js:1304-1306 | The first shortcut at a position is found, or −1 when none is there. |
| ShortcutGrid.DropExchanges | js/modules/shortcuts.js:1304-1323 | A drop swaps the two positions when the target is occupied, otherwise moves the source there. Only positions change; length and order are kept. |
| ShortcutGrid.TrimmedUrls | js/modules/shortcuts.js:1110-1118 | The kept URLs are no more than the inputs. |
| ShortcutGrid.TrimmedUrlsClean | js/modules/shortcuts.js:1110-1118 | Every kept URL is non-empty and already trimmed. |
| ShortcutGrid.TrimmedUrlsEmptyIff | js/modules/shortcuts.js:1110-1125 | No URL is kept exactly when every input is blank after trimming. |
| ShortcutGrid.TrimmedUrlsFirst | js/modules/shortcuts.js:1104-1125 | A non-blank first input guarantees a kept URL. |
| ShortcutGrid.Validate | js/modules/shortcuts.js:1095-1133 | The submission is ready iff the trimmed name and the first input are non-blank. It then holds the trimmed name and the trimmed non-empty URLs in order. |
| ShortcutGrid.Saved | js/modules/shortcuts.js:1192-1208 | Adding appends the submitted shortcut and keeps the list; the new one takes the edit position whenever there is one. Editing replaces only the edited index and keeps the length; the new value keeps its own position and takes the edit position only when it has none. Apart from the position, the written shortcut is the submitted one. |
| ShortcutGrid.Deleted | js/modules/shortcuts.js:1234-1240 | Without an index (−1) nothing is removed; otherwise exactly that element is. |
| ShortcutGrid.DeletedKeepsOthers | js/modules/shortcuts.js:1234-1240 | Deleting removes one element, keeps the others in order, and the multisets differ by that element. |
| ShortcutGrid.WithBlank | js/modules/shortcuts.js:1492-1511 | After the check some input is blank; one blank input is appended only when none was. |
| ShortcutGrid.PrefilledBlankSecond | js/modules/shortcuts.js:858-862 | Filling the inputs from stored URLs puts a blank input second, right after the first URL. Also lines 915-962. |
| ShortcutGrid.RemoveButtonsShown | js/modules/shortcuts.js:1051-1085 | One decision per input. |
| Shortcuts.Board.constructor | js/modules/shortcuts.js:12-17 | The module starts with no shortcuts, outside edit mode, with all indices −1. |
| Shortcuts.Board.ToggleEditMode | js/modules/shortcuts.js:409-411 | Edit mode flips. |
| Shortcuts.Board.RenderShortcuts | js/modules/shortcuts.js:478-494 | The placement loop yields the layout of the old list and writes back its positions. |
| Shortcuts.Board.ClickShortcut | js/modules/shortcuts.js:139-159 | A click opens a shortcut iff outside edit mode and the index is in range. |
| Shortcuts.Board.EnsureEmptyInputExists | js/modules/shortcuts.js:1492-1511 | The inputs become WithBlank of the old inputs, so some input is blank. |
| Shortcuts.Board.AddUrlInput | js/modules/shortcuts.js:915-962 | One input is appended, then a blank one is ensured. |
| Shortcuts.Board.RemoveUrlInput | js/modules/shortcuts.js:964-970 | That input is removed, then a blank one is ensured. |
| Shortcuts.Board.EditUrlInput | js/modules/shortcuts.js:976-1000 | The input's value changes, then a blank one is ensured. |
| Shortcuts.Board.UpdateRemoveButtons | js/modules/shortcuts.js:1051-1085 | A remove button is shown iff its input is non-blank and at least two inputs are non-blank. |
| Shortcuts.Board.OpenEditModal | js/modules/shortcuts.js:823-905 | The first argument becomes the edit position and the second the edit index. The inputs are the shortcut's URLs plus a blank one. |
| Shortcuts.Board.DblClickShortcut | js/modules/shortcuts.js:162-194 | In edit mode with the index in range, the shortcut is opened for editing at its position, and the URL inputs are its URLs followed by one blank input; otherwise nothing changes. |
| Shortcuts.Board.EmptyCellAdd | js/modules/shortcuts.js:170-181 | In edit mode the grid's listeners prepare a new shortcut for the cell: position = cell, index −1, one blank input. Also lines 310-327. |
| Shortcuts.Board.CellClickListener | js/modules/shortcuts.js:455-462 | In edit mode the per-cell listener passes (−1, cell), so the cell number becomes the edit index, and the URL inputs are prefilled from the shortcut at that list index (one blank input when there is none). Outside edit mode nothing changes. Also lines 727-731. |
| Shortcuts.Board.ClickEmptyCell | js/modules/shortcuts.js:310-327 | A single click on an empty cell, with one or two cell listeners attached, ends in the same state as EmptyCellAdd: the grid's listener runs last and resets what the cell listeners set. Also lines 455-462, 727-731. |
| Shortcuts.Board.ContextMenuEditAsWritten | js/modules/shortcuts.js:795 | The context-menu edit stores the list index as the edit position and leaves the edit index at −1, so the form opens empty with a single blank URL input. |
| Shortcuts.Board.ContextMenuEdit | js/modules/shortcuts.js:795 | The corrected edit stores the position and the index, and fills the inputs from that shortcut. Also lines 823-829. |
| Shortcuts.Board.SaveShortcut | js/modules/shortcuts.js:1162-1229 | The list becomes Saved with the default icon applied when the icon is empty. It is re-rendered, and both edit indices are reset to −1. |
| Shortcuts.Board.HandleFormSubmit | js/modules/shortcuts.js:1090-1160 | The outcome is Validate of the form. An invalid form changes nothing; a valid one is saved. |
| Shortcuts.Board.HandleDeleteShortcut | js/modules/shortcuts.js:1231-1254 | Without an edit index nothing changes; otherwise the list loses exactly that element and is re-rendered. |
| Shortcuts.Board.DragStart | js/modules/shortcuts.js:1256-1267 | The drag source is the dragged position. |
| Shortcuts.Board.DragEnd | js/modules/shortcuts.js:1337-1349 | The drag source is reset to −1. |
| Shortcuts.Board.HandleDrop | js/modules/shortcuts.js:1295-1335 | A no-op drop changes nothing; otherwise the list becomes the exchanged list and is re-rendered. |
| Shortcuts.EmptyCellClickAdds | js/modules/shortcuts.js:1213-1219 | Saving after a click on a free cell appends the shortcut, keeps every other one, and shows the new one in that cell. |
| Shortcuts.ContextEditAsWrittenDuplicates | js/modules/shortcuts.js:795 | As written, saving after a context-menu edit keeps the whole list and appends what was typed into the empty form, placed at the list index. Also lines 1213-1219. |
| Shortcuts.ContextEditReplaces | js/modules/shortcuts.js:1204-1210 | Saving an edit keeps the length and the other shortcuts, and replaces the edited one. It takes the stored position when it has none. |
| Cities.Moved | js/modules/cities.js:422-425 | Splicing out and back in keeps the length, puts the source element at the target, and keeps the multiset. |
| Cities.MovedRemap | js/modules/cities.js:428-437 | The remap follows every city: the city at i before the move is at Remap(i) after it. |
| Cities.RemapInjective | js/modules/cities.js:428-437 | Distinct indices stay distinct after the remap. |
| Text.Normalised | js/modules/cities.js:580-583 | A generated id (and a known-city key, weather.js:161-163) has no white space and no upper-case letters. |
| Text.NormalisedWithoutSpaces | js/modules/cities.js:581 | A name without white space becomes its lower-cased self. |
| Text.NormalisedAppend | js/modules/cities.js:581 | Normalising a concatenation normalises each piece, so no non-space character is lost or reordered. |
| Cities.Matching | js/modules/cities.js:484-506 | Every result matches the query and comes from the table. |
| Cities.MatchingComplete | js/modules/cities.js:484-506 | No matching entry is dropped. |
| Cities.SearchCities | js/modules/cities.js:481-511 | The results are the first min(matches, 5) matches in table order. |
| Cities.SearchCitiesSound | js/modules/cities.js:481-511 | Every result matches and is from the table. |
| Cities.ValidDisplayed | js/modules/cities.js:645-652 | The filtered indices are in range, enabled and among the old ones. |
| Cities.FirstEnabled | js/modules/cities.js:648-655 | The first enabled city's index, or −1 exactly when none is enabled. |
| Cities.CitiesToShow | js/modules/cities.js:683-688 | At most two cities are shown, each enabled and from the list. |
| Cities.ShownFollowsDisplayed | js/modules/cities.js:683-688 | With valid indices the shown cities are the first one or two displayed, in order. |
| Cities.ValidDisplayedAllValid | js/modules/cities.js:645-652 | Filtering valid indices keeps them all. |
| Cities.IndexOf | js/modules/cities.js:776 | The first index of a present value. |
| Cities.ToggledStaysInRange | js/modules/cities.js:775-789 | The dot keeps one or two cities displayed: a hidden city becomes displayed, and a displayed one is removed only when it is not alone. |
| Cities.CityList.constructor | js/modules/cities.js:14-16 | The module starts with no cities and displayed indices [0, 1]. |
| Cities.CityList.OpenCityEditModal | js/modules/cities.js:318-319 | Opening the editor snapshots the current list as the original, so a save with no edit in between leaves the displayed cities unchanged (with SaveCityList's first clause). |
| Cities.CityList.DragStart | js/modules/cities.js:395-401 | The drag source is recorded. |
| Cities.CityList.HandleCityDrop | js/modules/cities.js:416-446 | A no-op drop changes nothing. Otherwise the list is a permutation with the city at the target, and every displayed index still names the same city. |
| Cities.CityList.AddCity | js/modules/cities.js:578-607 | The id defaults to the normalised name and the time zone to 'Asia/Shanghai'. A duplicate id changes nothing; otherwise one enabled city is appended. |
| Cities.CityList.DeleteCity | js/modules/cities.js:376-379 | Exactly one city is spliced out; the displayed indices are untouched. |
| Cities.CityList.SetEnabled | js/modules/cities.js:382-385 | Only that city's enabled flag changes, to the checkbox value. |
| Cities.CityList.SaveCityList | js/modules/cities.js:634-673 | Nothing changes when the list is unchanged or none is enabled. Otherwise the indices are filtered to enabled ones in range, falling back to [first enabled]. |
| Cities.CityList.DotClick | js/modules/cities.js:773-791 | The displayed indices become the toggled ones, and one or two stay displayed. |
| DateTimeFormat.StoredFormat | js/modules/dateTimeFormat.js:9-12 | A missing or empty stored format gives the default. Also lines 30-33. |
| DateTimeFormat.GetDateFormat | js/modules/dateTimeFormat.js:9-12 | The date format is never empty and defaults to 'YYYY-MM-DD'. |
| DateTimeFormat.GetTimeFormat | js/modules/dateTimeFormat.js:30-33 | The time format is never empty and defaults to 'HH:mm'. |
| DateTimeFormat.Is24HourIff | js/modules/dateTimeFormat.js:40-43 | A format is 24-hour exactly when it has no 'a'. |
| DateTimeFormat.MonthNameZh | js/modules/dateTimeFormat.js:76-89 | The Chinese month name ends in '月' and has no date-token letters. |
| DateTimeFormat.FormatDateUnnamed | js/modules/dateTimeFormat.js:95-103 | Without 'MMM' the date is the format with YYYY, MM and DD filled once each. |
| DateTimeFormat.FormatDateYearMonthDay | js/modules/dateTimeFormat.js:70-103 | 'YYYY-MM-DD' gives year-MM-DD with a two-digit month and day. Also line 300. |
| DateTimeFormat.FormatDateMonthDayYear | js/modules/dateTimeFormat.js:70-103 | 'MM/DD/YYYY' gives MM/DD/year. Also line 301. |
| DateTimeFormat.FormatDateDayMonthYear | js/modules/dateTimeFormat.js:70-103 | 'DD/MM/YYYY' gives DD/MM/year. Also line 302. |
| DateTimeFormat.FormatDateChinese | js/modules/dateTimeFormat.js:70-103 | 'YYYY年MM月DD日' gives year年MM月DD日. Also line 303. |
| DateTimeFormat.FormatDateNamed | js/modules/dateTimeFormat.js:95-103 | With 'MMM' the Chinese month name goes in first, then the other tokens. |
| DateTimeFormat.FormatDateMonthFirst | js/modules/dateTimeFormat.js:95-103 | 'MMM DD, YYYY' gives the Chinese month name, the day and the year. Also line 304. |
| DateTimeFormat.FormatDateMonthMiddle | js/modules/dateTimeFormat.js:95-103 | 'DD MMM YYYY' gives the day, the Chinese month name and the year. Also line 305. |
| DateTimeFormat.Hours12 | js/modules/dateTimeFormat.js:131-133 | The 12-hour value lies in 1..12 and agrees with h mod 12 (0 becomes 12). |
| DateTimeFormat.Period | js/modules/dateTimeFormat.js:128 | The marker is AM before noon and PM after. |
| DateTimeFormat.FormatTime24 | js/modules/dateTimeFormat.js:136-149 | 'HH:mm' gives the two-digit hour and minute. |
| DateTimeFormat.FormatTime12 | js/modules/dateTimeFormat.js:131-149 | 'hh:mm a' gives the two-digit 12-hour value, the minutes and AM/PM. |
| DateTimeFormat.ToggledTimeFormat | js/modules/dateTimeFormat.js:210-222 | The toggle flips whether the format is 24-hour. |
| DateTimeFormat.ToggleTwice | js/modules/dateTimeFormat.js:210-222 | Two toggles keep the kind of clock, and from 'HH:mm' they come back to it. |
| Weather.StoredEntryIsFresh | js/modules/weather.js:50-66 | A stored entry is served until two hours have passed, and never when forced. Also line 14. |
| Weather.UncachedIsNotFresh | js/modules/weather.js:50-57 | A city never fetched always fetches. |
| Weather.Store.constructor | js/modules/weather.js:9-12 | The cache and the timestamps start empty. |
| Weather.Store.GetCityWeather | js/modules/weather.js:48-94 | A hit returns the entry and writes nothing. A successful fetch stores only that city's entry, timestamped with the clock reading taken after the fetch. A failure returns the cached entry or the fixed error record, with the cache unchanged. |
| Weather.Store.UpdateAllWeather | js/modules/weather.js:96-112 | Exactly the cached cities are refreshed. Each successful refresh stores its record and its own clock reading taken after that fetch; a failed refresh keeps the old entry and timestamp. |
| Weather.Rand | js/modules/weather.js:177-183 | The hash is below 100. |
| Weather.MockWeather | js/modules/weather.js:150-213 | An unknown name yields the error record with a null temperature. A known one has temperature in 10..35, humidity in 30..89, wind in 1..10, and a listed condition and icon. |
| Weather.MockConditionMatchesIcon | js/modules/weather.js:186-206 | Condition and icon class are picked by the same index. |
| Weather.KnownIgnoresCaseAndSpaces | js/modules/weather.js:161-168 | Names that differ only in case and white space are equally known. |
| Weather.FetchWeatherData | js/modules/weather.js:114-124 | With the empty API key the fetch returns the mock record. |
| Weather.IconClass | js/modules/weather.js:231-252 | A code maps to a listed class or to itself, and an empty code maps to 'sun'. |
| Weather.EmptyIconIsSun | js/modules/weather.js:251 | A record without an icon code is drawn with the sun. |
| Weather.DisplayedIcon | js/modules/weather.js:219-252 | An error record shows the question mark; otherwise the mapped code is shown. |
| Weather.MockIconFirstShownIsSun | js/modules/weather.js:186-206 | A new widget for a mock record always shows the sun. Also lines 231-252. |
| Weather.MockIconOnRefresh | js/modules/weather.js:300-306 | In the refresh branch a mock widget would show the generator's icon for its condition, the sun only for clear weather. The branch is dead in this program: its only caller (cities.js:748) passes a freshly built container with no widget. |
| Weather.ProviderRecordRemovedOnRefresh | js/modules/weather.js:300-315 | In the refresh branch a record without `iconClass` makes the call throw and the widget is removed. The branch is dead in this program, as for MockIconOnRefresh. |
| Weather.HidesWeatherCases | js/modules/weather.js:277-285 | The widget is hidden exactly for error records and for 0 °C, null or an empty label. |
| Weather.MockShownIffKnown | js/modules/weather.js:161-206 | A mock widget is shown iff the city is known; the failure record is hidden. Also lines 277-285. |
| Utils.IndexOfModal | js/modules/utils.js:61-62 | The first entry with that id is found, or −1 when none has it. |
| Utils.ModalManager.constructor | js/modules/utils.js:10-13 | The manager starts with no dialogs, not initialised. |
| Utils.ModalManager.Init | js/modules/utils.js:14-30 | The listener is registered once; a second init changes nothing. |
| Utils.ModalManager.OpenModal | js/modules/utils.js:32-58 | An unknown element returns false and leaves the stack. Otherwise exactly one entry is pushed on top, even for an open id. |
| Utils.ModalManager.CloseModal | js/modules/utils.js:60-87 | The first entry with the id is removed, the others keep their order, and its callback runs. An unknown id returns false and changes nothing. |
| Utils.ModalManager.Escape | js/modules/utils.js:16-27 | Nothing happens on an empty stack or before init. Otherwise the entry found by the top entry's id is removed and its onClose callback runs. The init state and the listener count never change. |
| Utils.ModalManager.CloseAllModals | js/modules/utils.js:89-95 | The stack ends empty and every callback has run, in stack order. |
| Utils.EscapeClosesTop | js/modules/utils.js:16-27 | With distinct ids ESC removes exactly the top entry. |
| Utils.EscapeWithDuplicateId | js/modules/utils.js:16-27 | With a repeated id ESC removes the lower entry instead. Also lines 61-62. |
| Utils.WhiteKeyedAt | js/modules/utils.js:133-140 | Per pixel: colour kept, and alpha 0 iff r, g and b are all above 240. Also lines 192-199. |
| Utils.WhiteKeyedPixel | js/modules/utils.js:133-140 | The same, stated for pixel p. Also lines 192-199. |
| Utils.WhiteKeyedIdempotent | js/modules/utils.js:133-140 | The pass run twice equals the pass run once. |
| Utils.MakeWhiteTransparent | js/modules/utils.js:133-140 | The loop leaves exactly the keyed buffer. Also lines 192-199. |
| Utils.NotificationPrefix | js/modules/utils.js:226-228 | 'i18n:' + key is translated by key. |
| Utils.NotificationVerbatim | js/modules/utils.js:226-228 | Every message without the 'i18n:' prefix is shown as it is. |
| Utils.DeepClone | js/modules/utils.js:267-288 | The clone equals the value. |
| I18n.Lookup | js/modules/i18n/index.js:103 | The pack's text when present and non-empty, else the key. |
| I18n.Placeholder | js/modules/i18n/index.js:108 | The placeholder is '{' name '}'. |
| I18n.SubstituteAbsent | js/modules/i18n/index.js:106-110 | Placeholders without a matching parameter leave the text as it is. |
| I18n.PlaceholderEverywhere | js/modules/i18n/index.js:106-110 | Every occurrence of a placeholder is replaced, however many there are: a text of '{'-free pieces joined by {name} becomes the same pieces joined by the value. |
| I18n.MissingKeyIsItself | js/modules/i18n/index.js:103 | A key the pack lacks comes back as itself. |
| I18n.Locale.constructor | js/modules/i18n/index.js:24-26 | The language starts as 'zh-CN' with its pack. |
| I18n.Locale.ChangeLanguage | js/modules/i18n/index.js:62-93 | An unsupported code returns false and changes nothing. A supported one sets the language and its pack together. |
| I18n.Locale.InitI18n | js/modules/i18n/index.js:31-56 | A stored supported language is adopted; otherwise the state stays. |
| I18n.RewriteAttribute | js/modules/i18n/index.js:163-175 | A well-formed attribute keeps its key and gets t(key) as its value. |
| I18n.RewritePlain | js/modules/i18n/index.js:163-175 | Text without the pattern's first character is copied unchanged. |
| Storage.LoadInitializationData | js/modules/storage.js:13-34 | The loaded data, or the fallback record on failure. |
| Storage.FallbackFields | js/modules/storage.js:26-32 | The fallback has shortcuts [], cities [], displayed [0, 1], showWeather true and the default background. |
| Storage.ShowWeatherOr | js/modules/storage.js:81 | showWeather is never undefined afterwards, and a defined value is kept. Also lines 108, 164. |
| Storage.InitValue | js/modules/storage.js:60-82 | What `initStorage` writes is never itself missing. |
| Storage.FilledPointwise | js/modules/storage.js:55-85 | The five conditional writes, read key by key, fill exactly the missing keys. |
| Storage.InitStorageFillsAll | js/modules/storage.js:55-85 | Afterwards none of the five keys is missing. |
| Storage.InitStorageKeepsPresent | js/modules/storage.js:55-85 | A present value, or a key outside the five, is never overwritten. |
| Storage.InitStorageIdempotent | js/modules/storage.js:55-85 | A second run, with any init data, writes nothing. |
| Storage.Store.constructor | js/modules/storage.js:37-52 | The store holds the given map. |
| Storage.Store.FillIfMissing | js/modules/storage.js:60-82 | One step writes its key only when the snapshot had it missing. |
| Storage.Store.InitStorage | js/modules/storage.js:55-85 | It returns the snapshot of the five keys, and every key reads as filled. |
| Storage.Store.ImportData | js/modules/storage.js:147-173 | It succeeds iff the data parses with an array of shortcuts. A failure writes nothing; a success merges the import record. |
| Storage.ImportRecord | js/modules/storage.js:159-167 | The import writes seven keys: shortcuts as given, and showWeather kept unless undefined. |
| Storage.ExportRecord | js/modules/storage.js:103-112 | The export is an object of eight fields. |
| Storage.ExportLeadingFields | js/modules/storage.js:103-107 | The first four fields follow the data, then init, then default chain. |
| Storage.ExportTrailingFields | js/modules/storage.js:108-111 | showWeather defaults to true, the caches to {}, and the version is '1.1'. |
| Storage.ExportImportRoundTrip | js/modules/storage.js:103-112 | Importing an export writes back exactly the exported fields, whatever the init data. Also lines 154-167. |
| Storage.ExportOfNonArrayShortcutsIsRefused | js/modules/storage.js:104 | Truthy non-array shortcuts are exported, and that export is refused on import. Also lines 154-156. |
| Storage.ImportShowWeather | js/modules/storage.js:164 | An explicit false is kept, and a missing value becomes true. |
| Ui.RoundDivExact | js/modules/ui.js:466-467 | Rounding an exact quotient gives it back. |
| Ui.RoundDivLe | js/modules/ui.js:466-467 | A rounded quotient stays within a bound the exact one stays within. |
| Ui.FitKeepsSmallImages | js/modules/ui.js:418 | An image within the screen keeps its size. Also line 456. |
| Ui.FitByWidth | js/modules/ui.js:458-467 | When the width ratio is smaller, the width becomes the screen width and the height follows, within the screen and the original. |
| Ui.FitByHeight | js/modules/ui.js:458-467 | When the height ratio is smaller, the height becomes the screen height and the width follows. |
| Ui.FitShrinksLargeImages | js/modules/ui.js:456-472 | An oversize image fits the screen afterwards and never grows. |
| Ui.LadderStep | js/modules/ui.js:533-536 | An oversize rung below the cap moves to the next one: JPEG at one tenth less, attempt + 1. |
| Ui.LadderStop | js/modules/ui.js:516-532 | A fitting rung is saved (compressed unless PNG); an oversize last rung saves the original. |
| Ui.LadderFrom | js/modules/ui.js:489-538 | From rung a on, the ladder tries consecutive rungs, all oversize but the last, and saves as LadderStop says. |
| Ui.LadderOutcome | js/modules/ui.js:485-538 | At most six encodings are tried: PNG 1.0 then JPEG 0.9 down to 0.5. A fitting last one is saved, and when even 0.5 is too large the original is saved, flagged compressed. |
| Ui.SmallPngIsKept | js/modules/ui.js:501-532 | A PNG that already fits is saved as is, not flagged compressed. |
| CoreEvents.EscapeClosesOne | js/modules/core.js:172-252 | With an overlay open, ESC closes exactly one and keeps edit mode. With none open it only leaves edit mode. |
| CoreEvents.EscapePriority | js/modules/core.js:172-185 | With the image editor open only it is closed. |
| CoreEvents.EscapeRepeatedly | js/modules/core.js:172-252 | Pressing ESC once per overlay, plus once, closes everything and leaves edit mode. |
| CoreEvents.Page.constructor | js/modules/core.js:172-252 | The page holds the given screen and is not closing. |
| CoreEvents.Page.Escape | js/modules/core.js:172-252 | The listener's loops give EscapeResult; the closing flag is set iff an overlay was open. |
| CoreEvents.DblClickOutsideEditMode | js/modules/core.js:317-371 | Outside edit mode a double-click is ignored when blocked, and otherwise only enters edit mode. Also lines 397-400, 426-429, 451-454. |
| CoreEvents.DblClickInEditMode | js/modules/core.js:317-448 | In edit mode it never enters edit mode. Unless blocked it routes to date, then time, then city, then background. |
| CoreEvents.DblClickTogglesIff | js/modules/core.js:317-454 | Edit mode is entered iff it is off and the click is not blocked. |
| CoreEvents.ClickOnlyLeavesEditMode | js/modules/core.js:122-141 | A single click schedules leaving edit mode iff in edit mode, on the bare background, not selecting, not just after a double-click, and not on a widget. |
| Support.HasSpecialFile | js/modules/support.js:54-61 | The special file counts iff the fetch succeeded with ok; a thrown fetch counts as absent. |
| Support.StoredCount | js/modules/support.js:34-36 | A missing or falsy counter counts as 0, and a number as itself. |
| Support.CheckAndShowCoffee | js/modules/support.js:21-51 | With the special file nothing is read or written. Otherwise the counter is stored one higher and the icon is shown iff the new count is 1 or a multiple of 10. |
| Support.OncePerTen | js/modules/support.js:44-47 | After the first view the icon appears exactly once in any ten consecutive views. |
| Support.FirstViewShows | js/modules/support.js:34-47 | A missing counter makes the first view show the icon. |
| Text.FindSpec | js/modules/dateTimeFormat.js:98-103 | `indexOf` finds the first occurrence, and −1 exactly when there is none. |
| Text.ReplaceFirstAt | js/modules/dateTimeFormat.js:98-103 | `replace` with a string replaces the first occurrence and keeps what precedes it. |
| Text.ReplaceAllAt | js/modules/i18n/index.js:108 | A global replace replaces the first occurrence and resumes after it. |
| Text.ReplaceAllSelf | js/modules/i18n/index.js:108 | Replacing a placeholder by itself gives the text back. |
| Text.ReplaceAllRemovesPattern | js/modules/i18n/index.js:108 | For a one-character pattern, no occurrence is left when the replacement holds none. |
| Text.ReplaceAllJoin | js/modules/i18n/index.js:108 | A global replace turns pieces that cannot start the pattern, joined by the pattern, into the same pieces joined by the replacement, for any number of pieces. |
| Text.TrimEmptyIff | js/modules/shortcuts.js:1095-1118 | A string trims to '' exactly when it is all white space. |
| Text.TrimIsTrimmed | js/modules/shortcuts.js:1095-1118 | A trimmed string neither starts nor ends with white space. |
| Text.TrimIdempotent | js/modules/shortcuts.js:1095-1118 | Trimming twice is trimming once. |
| Text.RemoveSpaces | js/modules/cities.js:582 | Removing `\s+` leaves no white space and keeps at most the length; text without white space is kept whole and white space alone vanishes. |
| Text.RemoveSpacesAppend | js/modules/cities.js:582 | Removal works piece by piece, so the other characters are kept in order. |
| Text.Pad2 | js/modules/dateTimeFormat.js:70-71 | Padding a number below 100 gives its tens and units digits. Also line 133. |
| Json.Or | js/modules/storage.js:104-110 | `a \|\| b` is one of them, and truthy iff either is. |

## Left out

- Image acquisition (loading from URLs, proxies, files, favicon downloads) is network and callback plumbing. The model starts from a decoded image size and pixel buffer.
- Canvas drawing and encoding are foreign. The model uses a pixel buffer as input and an encoded-length oracle (`Ui.TryCompress`'s `length`).
- DOM rendering and styling are abstracted away: element creation, class toggles, the checkerboard, dialogs, loaders, context-menu markup and draggable wiring. The computed-style versus inline-display distinction of the ESC handler is reduced to one visible flag per overlay.
- Timers and asynchronous plumbing are left out: the 300 ms click timer, the 500 ms double-click window, the 5-second preview restore, the background toggle interval, notification timeouts and the refresh intervals. `CoreEvents` takes "just handled a double-click" as an input, and the lazily imported `toggleEditMode` is taken to run.
- Intl and `toLocaleTimeString` are left out. Year, month, day, hour, minute and second are inputs, so `createTimeElement` and `updateDateTime` are not modelled.
- `chrome.storage`, `localStorage`, the Blob download, and the fetch of `initialization.json` are left out. They appear as a map field, an optional stored string, and an optional loaded value. A null result of the init-data load (a file holding `null`) is not modelled.
- Weather fetches from the provider are left out: with the empty API key the source never reaches them. `Weather.Store.UpdateAllWeather` takes the outcome of each refresh and the clock reading after it as input functions of the city. The order in which the cities are refreshed is not modelled; with each city's fetch and clock given, it does not change the result.
- `generateId` uses `Math.random` and is not modelled. The context-menu "delete" calls a `deleteShortcut` that is not defined anywhere, so it throws and is left out.
- Cities.CityList.HandleCityDrop, DeleteCity and SetEnabled require in-range indices, as the rendered rows supply them. A `splice` or index write outside the list (a sparse-array write) is not modelled.
- Shortcuts.Board.SaveShortcut requires an edit index that is −1 or in range. A write past the end of the array, which JavaScript turns into a sparse array, is not modelled.
- IconGeometry.FitDrawArea computes over exact integers and rationals. The source works in doubles: `imageRatio = iw/ih` is rounded before `Math.floor(cw / imageRatio)` or `Math.floor(ch * imageRatio)`, and that floor can be one pixel lower. For example, an 11×15 image in a 300×300 canvas gets width 219 in the source and 220 in the model. The near-square and wider-than-container tests are also compared exactly.
- IconGeometry.FitWide and IconGeometry.FitTall state the exact rational floor. The source's floating-point floor can be one lower.
- IconGeometry.CropInsideImage and IconGeometry.CropAxisInside use the exact floor of (offset·iw)/drawW. The source floors `offset * (iw / drawW)` in doubles, which can be one lower: a 49-px selection over a 49-px area of a 4-px-wide image gives 3 in the source and 4 in the model.
- BackgroundEditor computes over exact reals, while the source rounds each double operation.
- BackgroundEditor.Editor.ProcessImage returns a separate `DegenerateArea` outcome for a zero-width or zero-height draw area. The source divides by zero there and goes on to draw with Infinity or NaN sizes, which `real` cannot represent. A draw area computed by the fit from a positive image and container is never empty.
- Ui.FitByWidth and Ui.FitByHeight require screen sizes above 0. A zero-size screen gives infinite or NaN ratios in JavaScript.
- Ui.RoundDivLe and the resize model `Math.round(o·ratio)` as exact rational rounding. The floating-point product can differ by one ulp, and that is not modelled.
- Ui.TryCompress keeps quality in integer tenths. The floating-point steps (0.7000000000000001 and so on) are not modelled; the attempt cap stops the ladder at the same rung. The explicit PNG-to-JPEG switch branch is dead from the initial call, as `Ui.LadderOutcome` shows, and its body is modelled only through that.
- BackgroundEditor requires `innerHeight > 80` and positive image sizes. JavaScript's division by zero or by a negative height is not representable over `real`.
- Support.StoredCount models numeric and falsy counters only. The source's `count++` converts any other stored value to a number first: a stored string "5" becomes 6 in the source, and "abc" becomes NaN. The model has no such values in its counter type.
- I18n.Locale.ChangeLanguage and InitI18n test the supported codes as a set. `LANGUAGE_PACKS[x]` would also accept inherited property names such as 'constructor', and that is not modelled. `applyI18nToHTML` is modelled for literal patterns.
- I18n.Substitute treats each `{param}` as a literal pattern and the value as literal text. The source builds a `RegExp` from the parameter name and passes the value as a replacement string, so `$` patterns in values and parameter names with regex metacharacters behave differently there and are not modelled.
- Utils.DeepClone does not model `Date` values, which the source copies with `new Date`.
- Weather.CodeSum sums characters as Dafny `char` values. JavaScript sums UTF-16 code units, so the two differ only for characters outside the Basic Multilingual Plane.
- The 'MMM' option labels show English month abbreviations while `formatDate` always inserts the Chinese name. The model proves the Chinese output (`DateTimeFormat.FormatDateMonthFirst`) and does not model the labels.
- `Text` models JavaScript's white space as a finite set of characters, and `toLowerCase` as ASCII only.

## Findings

| source | as written | input that shows it | evidently intended | confidence | as-written member | corrected member |
|---|---|---|---|---|---|---|
| js/modules/shortcuts.js:795 | The context menu's "edit" calls `openEditModal(index)`, so the list index becomes the edit position and the edit index stays −1: the form opens empty, and saving appends whatever is typed, at position = list index, instead of editing the shortcut | Right-click the shortcut at list index 0 and choose edit: the form shows no URLs; fill and save it and the list grows from one shortcut to two, the original kept | `openEditModal(position, index)`, as the double-click handler calls it, so the save replaces the shortcut in place | not executed | Shortcuts.Board.ContextMenuEditAsWritten, Shortcuts.ContextEditAsWrittenDuplicates | Shortcuts.Board.ContextMenuEdit, Shortcuts.ContextEditReplaces |
| js/modules/imageEditor.js:874 | The transparency check counts every canvas pixel, including the letterbox margins that `clearRect` left at alpha 0 around a non-square image | A fully opaque 1000×500 image loaded into a 400×400 canvas: the draw area is 400×200, so half the canvas is cleared margin, the ratio exceeds 0.1, the picker is disabled and the colour becomes {0,0,0,0}, so near-black pixels are keyed out | Judge only the pixels the image was drawn on, so an opaque photo keeps the picker | not executed | IconEditor.LetterboxedImageIsTransparent | IconEditor.DrawAreaCheckKeepsOpaqueImages |
