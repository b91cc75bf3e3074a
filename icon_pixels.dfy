/**
 * Pixel-buffer rules of the icon editor (js/modules/imageEditor.js): RGBA
 * buffers are sequences of bytes, four per pixel, rows top to bottom. This
 * module holds the colour-key pass of `processImage` (run in place on the
 * cropped buffer), the looser rule of the transparency preview, the
 * transparency detector of `checkTransparentBackground`, and the crop copy
 * that `drawImage` performs with a one-to-one source rectangle.
 */
module IconPixels {
  import opened Common
  import Arith
  import IconGeometry

  /** An `ImageData`: a `width`×`height` RGBA buffer. */
  datatype Raster = Raster(width: nat, height: nat, data: seq<byte>)
  {
    predicate Sized() { |data| == 4 * (height * width) }
  }

  /** The `selectedColor` record. */
  datatype Rgba = Rgba(r: byte, g: byte, b: byte, a: byte)

  /** `Math.sqrt(Δr² + Δg² + Δb²) < 30`, squared: the distance is below 30 exactly when the sum is below 900. */
  predicate CloseTo(r: byte, g: byte, b: byte, c: Rgba)
  {
    var dr, dg, db := r as int - c.r as int, g as int - c.g as int, b as int - c.b as int;
    dr * dr + dg * dg + db * db < 900
  }

  /** The preview's rule: every channel within 30 of the selected colour. */
  predicate WithinTolerance(r: byte, g: byte, b: byte, c: Rgba)
  {
    -30 <= r as int - c.r as int <= 30 && -30 <= g as int - c.g as int <= 30 && -30 <= b as int - c.b as int <= 30
  }

  /** Byte `i` after the key pass: an alpha byte whose pixel is close to the colour becomes 0. */
  function KeyByte(d: seq<byte>, c: Rgba, i: int): byte
    requires 0 <= i < |d|
  {
    if i % 4 == 3 && CloseTo(d[i - 3], d[i - 2], d[i - 1], c) then 0 else d[i]
  }

  /** The buffer after the key pass of `processImage`. */
  function Keyed(d: seq<byte>, c: Rgba): seq<byte>
  {
    seq(|d|, i requires 0 <= i < |d| => KeyByte(d, c, i))
  }

  /** The preview copy of `previewTransparency`. */
  function Previewed(d: seq<byte>, c: Rgba): seq<byte>
  {
    seq(|d|, i requires 0 <= i < |d| =>
      if i % 4 == 3 && WithinTolerance(d[i - 3], d[i - 2], d[i - 1], c) then 0 else d[i])
  }

  /** The four bytes of the pixel at `index` after the key pass. */
  lemma KeyBytesAt(d: seq<byte>, c: Rgba, index: int)
    requires 0 <= index && index % 4 == 0 && index + 3 < |d|
    ensures KeyByte(d, c, index) == d[index] && KeyByte(d, c, index + 1) == d[index + 1]
    ensures KeyByte(d, c, index + 2) == d[index + 2]
    ensures KeyByte(d, c, index + 3) == if CloseTo(d[index], d[index + 1], d[index + 2], c) then 0 else d[index + 3]
  {
    assert (index + 3) % 4 == 3 && (index + 1) % 4 == 1 && (index + 2) % 4 == 2;
  }

  /**
   * The key pass only ever clears alpha: colour channels are untouched, and a
   * pixel ends transparent exactly when it matched the colour or already was.
   */
  lemma KeyedPixel(d: seq<byte>, c: Rgba, p: nat)
    requires |d| % 4 == 0 && 4 * p + 3 < |d|
    ensures |Keyed(d, c)| == |d|
    ensures Keyed(d, c)[4 * p] == d[4 * p] && Keyed(d, c)[4 * p + 1] == d[4 * p + 1]
    ensures Keyed(d, c)[4 * p + 2] == d[4 * p + 2]
    ensures Keyed(d, c)[4 * p + 3] == 0 <==> CloseTo(d[4 * p], d[4 * p + 1], d[4 * p + 2], c) || d[4 * p + 3] == 0
    ensures !CloseTo(d[4 * p], d[4 * p + 1], d[4 * p + 2], c) ==> Keyed(d, c)[4 * p + 3] == d[4 * p + 3]
  {
    KeyBytesAt(d, c, 4 * p);
  }

  /** One byte of the buffer is unchanged by a second key pass. */
  lemma KeyByteStable(d: seq<byte>, c: Rgba, i: int)
    requires 0 <= i < |d|
    ensures KeyByte(Keyed(d, c), c, i) == KeyByte(d, c, i)
  {
    var k := Keyed(d, c);
    if i % 4 == 3 {
      KeyBytesAt(d, c, i - 3);
      KeyBytesAt(k, c, i - 3);
    }
  }

  /** Running the key pass twice gives the same buffer as running it once. */
  lemma KeyedIdempotent(d: seq<byte>, c: Rgba)
    ensures Keyed(Keyed(d, c), c) == Keyed(d, c)
  {
    var k := Keyed(d, c);
    forall i | 0 <= i < |d| ensures Keyed(k, c)[i] == k[i] {
      KeyByteStable(d, c, i);
    }
  }

  lemma SquareAtLeast(v: int)
    requires v > 30 || v < -30
    ensures v * v >= 961
  {
    if v > 30 { Arith.MulLe(31, v, v); Arith.MulLe(31, v, 31); }
    else { Arith.MulLe(31, -v, -v); Arith.MulLe(31, -v, 31); }
  }

  /** Every pixel the key pass would clear is also cleared by the preview, so the preview never shows less than the result. */
  lemma PreviewCoversKey(r: byte, g: byte, b: byte, c: Rgba)
    requires CloseTo(r, g, b, c)
    ensures WithinTolerance(r, g, b, c)
  {
    var dr, dg, db := r as int - c.r as int, g as int - c.g as int, b as int - c.b as int;
    assert dr * dr >= 0 && dg * dg >= 0 && db * db >= 0;
    if dr > 30 || dr < -30 { SquareAtLeast(dr); }
    if dg > 30 || dg < -30 { SquareAtLeast(dg); }
    if db > 30 || db < -30 { SquareAtLeast(db); }
  }

  /** The two rules differ: a pixel 30 away on every channel is cleared by the preview but kept by the key pass. */
  lemma PreviewLooserThanKey()
    ensures WithinTolerance(30, 30, 30, Rgba(0, 0, 0, 0)) && !CloseTo(30, 30, 30, Rgba(0, 0, 0, 0))
  {
  }

  /** In-place key pass over a `w`×`h` buffer, nested row and column loops as in `processImage`. */
  method KeyOut(data: array<byte>, w: nat, h: nat, c: Rgba)
    requires data.Length == 4 * (h * w)
    modifies data
    ensures data[..] == Keyed(old(data[..]), c)
  {
    ghost var orig := data[..];
    var y := 0;
    while y < h
      invariant 0 <= y <= h
      invariant y * w <= h * w
      invariant forall i :: 0 <= i < data.Length ==> data[i] == if i < 4 * (y * w) then KeyByte(orig, c, i) else orig[i]
    {
      var x := 0;
      while x < w
        invariant 0 <= x <= w
        invariant forall i :: 0 <= i < data.Length ==> data[i] == if i < 4 * (y * w + x) then KeyByte(orig, c, i) else orig[i]
      {
        Arith.RowMajor(y, x, w, h);
        var index := (y * w + x) * 4;
        var r, g, b := data[index], data[index + 1], data[index + 2];
        KeyBytesAt(orig, c, index);
        assert r == orig[index] && g == orig[index + 1] && b == orig[index + 2];
        if CloseTo(r, g, b, c) {
          data[index + 3] := 0;
        }
        x := x + 1;
      }
      if w > 0 { Arith.RowMajor(y, w - 1, w, h); }
      y := y + 1;
    }
    assert data[..] == Keyed(orig, c);
  }

  // ---- transparency detection ----

  /** A sampled alpha byte counts as transparent when below 250; an index outside the buffer reads `undefined` and does not count. */
  predicate TransparentAt(d: seq<byte>, i: int)
  {
    0 <= i < |d| && d[i] < 250
  }

  function TopRow(w: nat): seq<int> { seq(w, x => x * 4 + 3) }

  function BottomRow(w: nat, h: nat): seq<int> { seq(w, x => ((h - 1) * w + x) * 4 + 3) }

  function LeftColumn(w: nat, h: nat): seq<int> { seq(Max(0, h - 2), k => ((k + 1) * w) * 4 + 3) }

  function RightColumn(w: nat, h: nat): seq<int> { seq(Max(0, h - 2), k => ((k + 1) * w + w - 1) * 4 + 3) }

  /**
   * The alpha indices `checkTransparentBackground` samples, in push order:
   * top row, bottom row, then the left and right columns without the corners.
   */
  function EdgeSamples(w: nat, h: nat): (r: seq<int>)
    ensures |r| == 2 * w + 2 * Max(0, h - 2)
  {
    TopRow(w) + BottomRow(w, h) + LeftColumn(w, h) + RightColumn(w, h)
  }

  /** All samples are alpha bytes of pixels inside a `w`×`h` buffer. */
  predicate AlphaIndicesInside(s: seq<int>, w: nat, h: nat)
  {
    forall k :: 0 <= k < |s| ==> 0 <= s[k] < 4 * (h * w) && s[k] % 4 == 3
  }

  lemma RowsInside(w: nat, h: nat)
    requires h >= 1
    ensures AlphaIndicesInside(TopRow(w), w, h) && AlphaIndicesInside(BottomRow(w, h), w, h)
  {
    forall k | 0 <= k < w ensures 0 <= TopRow(w)[k] < 4 * (h * w) && TopRow(w)[k] % 4 == 3 {
      Arith.RowMajor(0, k, w, h);
    }
    forall k | 0 <= k < w ensures 0 <= BottomRow(w, h)[k] < 4 * (h * w) && BottomRow(w, h)[k] % 4 == 3 {
      Arith.RowMajor(h - 1, k, w, h);
    }
  }

  lemma ColumnsInside(w: nat, h: nat)
    requires h >= 1 && w >= 1
    ensures AlphaIndicesInside(LeftColumn(w, h), w, h) && AlphaIndicesInside(RightColumn(w, h), w, h)
  {
    {
      forall k | 0 <= k < Max(0, h - 2) ensures 0 <= LeftColumn(w, h)[k] < 4 * (h * w) && LeftColumn(w, h)[k] % 4 == 3 {
        Arith.RowMajor(k + 1, 0, w, h);
      }
      forall k | 0 <= k < Max(0, h - 2) ensures 0 <= RightColumn(w, h)[k] < 4 * (h * w) && RightColumn(w, h)[k] % 4 == 3 {
        Arith.RowMajor(k + 1, w - 1, w, h);
      }
    }
  }

  lemma ConcatInside(a: seq<int>, b: seq<int>, w: nat, h: nat)
    requires AlphaIndicesInside(a, w, h) && AlphaIndicesInside(b, w, h)
    ensures AlphaIndicesInside(a + b, w, h)
  {
    forall k | 0 <= k < |a + b| ensures 0 <= (a + b)[k] < 4 * (h * w) && (a + b)[k] % 4 == 3 {
      if k >= |a| { assert (a + b)[k] == b[k - |a|]; }
    }
  }

  /** Every edge sample of a non-empty image is the alpha byte of a pixel inside the buffer. */
  lemma EdgeSamplesInside(w: nat, h: nat)
    requires h >= 1 && w >= 1
    ensures AlphaIndicesInside(EdgeSamples(w, h), w, h)
  {
    RowsInside(w, h);
    ColumnsInside(w, h);
    ConcatInside(TopRow(w), BottomRow(w, h), w, h);
    ConcatInside(TopRow(w) + BottomRow(w, h), LeftColumn(w, h), w, h);
    ConcatInside(TopRow(w) + BottomRow(w, h) + LeftColumn(w, h), RightColumn(w, h), w, h);
  }

  /** How many of the sampled indices are transparent. */
  function CountTransparent(d: seq<byte>, samples: seq<int>): (n: nat)
    ensures n <= |samples|
  {
    if samples == [] then 0
    else CountTransparent(d, samples[..|samples| - 1]) + (if TransparentAt(d, samples[|samples| - 1]) then 1 else 0)
  }

  /** How many of the first `n` pixels have alpha below 250. */
  function TransparentPixels(d: seq<byte>, n: nat): (k: nat)
    requires 4 * n <= |d|
    ensures k <= n
  {
    if n == 0 then 0
    else TransparentPixels(d, n - 1) + (if d[4 * (n - 1) + 3] < 250 then 1 else 0)
  }

  /**
   * The decision of `checkTransparentBackground`: more than 10% of all pixels
   * or more than 30% of the edge samples are transparent. With no pixels or
   * no samples the JavaScript ratio is `NaN`, which compares false, and so
   * does the integer form.
   */
  predicate AlreadyTransparent(transparentPixels: nat, totalPixels: nat, transparentEdges: nat, edgeCount: nat)
  {
    10 * transparentPixels > totalPixels || 10 * transparentEdges > 3 * edgeCount
  }

  /** A fully opaque image is never taken as already transparent. */
  lemma OpaqueIsNotTransparent(d: seq<byte>, w: nat, h: nat)
    requires |d| == 4 * (h * w)
    requires forall p :: 0 <= p < h * w ==> d[4 * p + 3] == 255
    ensures !AlreadyTransparent(TransparentPixels(d, h * w), h * w,
                                CountTransparent(d, EdgeSamples(w, h)), |EdgeSamples(w, h)|)
  {
    NoTransparentPixels(d, h * w);
    if h >= 1 && w >= 1 {
      EdgeSamplesInside(w, h);
      NoTransparentSamples(d, EdgeSamples(w, h), w, h);
    } else {
      assert h * w == 0;
      NoSamplesInEmpty(d, EdgeSamples(w, h));
    }
  }

  /** The alpha byte of pixel (x, y) of a `w`×`h` buffer. */
  function Alpha(d: seq<byte>, w: nat, h: nat, x: int, y: int): byte
    requires |d| == 4 * (h * w) && 0 <= x < w && 0 <= y < h
  {
    Arith.RowMajor(y, x, w, h);
    d[4 * (y * w + x) + 3]
  }

  /** Pixel (x, y) lies in the box `area`. */
  predicate InArea(x: int, y: int, area: IconGeometry.Rect)
  {
    area.x <= x < area.x + area.width && area.y <= y < area.y + area.height
  }

  /**
   * The canvas after `clearRect` and a `drawImage` into `area`: every pixel
   * outside the draw area is still cleared, so its alpha is 0.
   */
  predicate ClearOutside(d: seq<byte>, w: nat, h: nat, area: IconGeometry.Rect)
    requires |d| == 4 * (h * w)
  {
    forall y, x :: 0 <= y < h && 0 <= x < w && !InArea(x, y, area) ==> Alpha(d, w, h, x, y) == 0
  }

  /** Counting more pixels never lowers the count. */
  lemma {:induction false} TransparentPixelsMono(d: seq<byte>, m: nat, n: nat)
    requires m <= n && 4 * n <= |d|
    ensures TransparentPixels(d, n) >= TransparentPixels(d, m)
  {
    if n > m { TransparentPixelsMono(d, m, n - 1); }
  }

  /** A run of transparent pixels adds its whole length to the count. */
  lemma {:induction false} TransparentRun(d: seq<byte>, m: nat, n: nat)
    requires m <= n && 4 * n <= |d|
    requires forall p :: m <= p < n ==> d[4 * p + 3] < 250
    ensures TransparentPixels(d, n) >= TransparentPixels(d, m) + (n - m)
  {
    if n > m { TransparentRun(d, m, n - 1); }
  }

  /** A cleared stretch `[a, b)` of row `y` adds its length to the count. */
  lemma ClearedRun(d: seq<byte>, w: nat, h: nat, area: IconGeometry.Rect, y: nat, a: nat, b: nat)
    requires |d| == 4 * (h * w) && y < h && a <= b <= w
    requires ClearOutside(d, w, h, area)
    requires forall x :: a <= x < b ==> !InArea(x, y, area)
    ensures y * w + w <= h * w
    ensures TransparentPixels(d, y * w + b) >= TransparentPixels(d, y * w + a) + (b - a)
  {
    if w > 0 {
      Arith.RowMajor(y, 0, w, h);
    }
    forall p | y * w + a <= p < y * w + b ensures d[4 * p + 3] < 250 {
      assert Alpha(d, w, h, p - y * w, y) == 0;
    }
    TransparentRun(d, y * w + a, y * w + b);
  }

  /** Row `y` adds at least its pixels outside the draw area to the count. */
  lemma TransparentRow(d: seq<byte>, w: nat, h: nat, area: IconGeometry.Rect, y: nat)
    requires |d| == 4 * (h * w) && y < h
    requires IconGeometry.Inside(area, IconGeometry.Rect(0, 0, w, h)) && area.width >= 0
    requires ClearOutside(d, w, h, area)
    ensures y * w + w <= h * w
    ensures TransparentPixels(d, y * w + w)
      >= TransparentPixels(d, y * w) + (if area.y <= y < area.y + area.height then w - area.width else w)
  {
    if area.y <= y < area.y + area.height {
      ClearedRun(d, w, h, area, y, 0, area.x);
      TransparentPixelsMono(d, y * w + area.x, y * w + area.x + area.width);
      ClearedRun(d, w, h, area, y, area.x + area.width, w);
    } else {
      ClearedRun(d, w, h, area, y, 0, w);
    }
  }

  /** How many of the first `k` rows cross the draw area. */
  function RowsIn(k: int, area: IconGeometry.Rect): int
  {
    Max(0, Min(k, area.y + area.height) - area.y)
  }

  lemma MulStep(m: int, n: int, a: int)
    requires m == n + 1
    ensures m * a == n * a + a && a * m == a * n + a
  {
  }

  /** Row `k - 1` adds the draw area's width to the area pixels counted, when it crosses the area. */
  lemma RowsInStep(k: int, area: IconGeometry.Rect)
    requires area.y >= 0 && area.height >= 0
    ensures area.width * RowsIn(k, area)
      == area.width * RowsIn(k - 1, area) + (if area.y <= k - 1 < area.y + area.height then area.width else 0)
  {
    if area.y <= k - 1 < area.y + area.height {
      MulStep(RowsIn(k, area), RowsIn(k - 1, area), area.width);
    } else {
      assert RowsIn(k, area) == RowsIn(k - 1, area);
    }
  }

  /** The first `k` rows hold at least their pixels minus the draw area's pixels in them. */
  lemma {:induction false} TransparentRows(d: seq<byte>, w: nat, h: nat, area: IconGeometry.Rect, k: nat)
    requires |d| == 4 * (h * w) && k <= h
    requires IconGeometry.Inside(area, IconGeometry.Rect(0, 0, w, h)) && area.width >= 0 && area.height >= 0
    requires ClearOutside(d, w, h, area)
    ensures k * w <= h * w
    ensures TransparentPixels(d, k * w) + area.width * RowsIn(k, area) >= k * w
  {
    if k == 0 {
      assert k * w == 0;
    } else {
      TransparentRows(d, w, h, area, k - 1);
      TransparentRow(d, w, h, area, k - 1);
      MulStep(k, k - 1, w);
      RowsInStep(k, area);
    }
  }

  /**
   * On the canvas, the cleared margin alone decides: when the pixels outside
   * the draw area are more than a tenth of the canvas, the check reports the
   * picture as already transparent, whatever the image's own pixels are.
   */
  lemma MarginMakesTransparent(d: seq<byte>, w: nat, h: nat, area: IconGeometry.Rect)
    requires |d| == 4 * (h * w)
    requires IconGeometry.Inside(area, IconGeometry.Rect(0, 0, w, h)) && area.width >= 0 && area.height >= 0
    requires ClearOutside(d, w, h, area)
    requires 10 * (h * w - area.width * area.height) > h * w
    ensures AlreadyTransparent(TransparentPixels(d, h * w), h * w,
                               CountTransparent(d, EdgeSamples(w, h)), |EdgeSamples(w, h)|)
  {
    TransparentRows(d, w, h, area, h);
    assert RowsIn(h, area) == area.height;
  }

  lemma {:induction false} NoTransparentPixels(d: seq<byte>, n: nat)
    requires 4 * n <= |d|
    requires forall p :: 0 <= p < n ==> d[4 * p + 3] == 255
    ensures TransparentPixels(d, n) == 0
  {
    if n > 0 { NoTransparentPixels(d, n - 1); }
  }

  lemma {:induction false} NoTransparentSamples(d: seq<byte>, samples: seq<int>, w: nat, h: nat)
    requires |d| == 4 * (h * w) && AlphaIndicesInside(samples, w, h)
    requires forall p :: 0 <= p < h * w ==> d[4 * p + 3] == 255
    ensures CountTransparent(d, samples) == 0
  {
    if samples != [] {
      NoTransparentSamples(d, samples[..|samples| - 1], w, h);
      var i := samples[|samples| - 1];
      assert d[4 * (i / 4) + 3] == 255;
    }
  }

  lemma {:induction false} NoSamplesInEmpty(d: seq<byte>, samples: seq<int>)
    requires |d| == 0
    ensures CountTransparent(d, samples) == 0
  {
    if samples != [] { NoSamplesInEmpty(d, samples[..|samples| - 1]); }
  }

  /** The four collecting loops of `checkTransparentBackground`. */
  method CollectEdgeSamples(w: nat, h: nat) returns (edges: seq<int>)
    ensures edges == EdgeSamples(w, h)
  {
    edges := [];
    var x := 0;
    while x < w
      invariant 0 <= x <= w && edges == seq(x, k => k * 4 + 3)
    {
      edges := edges + [x * 4 + 3];
      x := x + 1;
    }
    ghost var top := edges;
    assert top == TopRow(w);
    x := 0;
    while x < w
      invariant 0 <= x <= w && edges == top + seq(x, k => ((h - 1) * w + k) * 4 + 3)
    {
      edges := edges + [((h - 1) * w + x) * 4 + 3];
      x := x + 1;
    }
    ghost var rows := edges;
    assert rows == TopRow(w) + BottomRow(w, h);
    var y := 1;
    while y < h - 1
      invariant 1 <= y && (h >= 2 ==> y <= h - 1) && (h < 2 ==> y == 1)
      invariant edges == rows + seq(y - 1, k => ((k + 1) * w) * 4 + 3)
    {
      edges := edges + [(y * w) * 4 + 3];
      y := y + 1;
    }
    ghost var left := edges;
    assert y - 1 == Max(0, h - 2);
    assert left == TopRow(w) + BottomRow(w, h) + LeftColumn(w, h);
    y := 1;
    while y < h - 1
      invariant 1 <= y && (h >= 2 ==> y <= h - 1) && (h < 2 ==> y == 1)
      invariant edges == left + seq(y - 1, k => ((k + 1) * w + w - 1) * 4 + 3)
    {
      edges := edges + [(y * w + w - 1) * 4 + 3];
      y := y + 1;
    }
    assert y - 1 == Max(0, h - 2);
    assert edges == left + RightColumn(w, h);
  }

  /** The loop counting transparent edge samples; an index outside the buffer never counts. */
  method CountTransparentSamples(d: seq<byte>, edges: seq<int>) returns (count: nat)
    ensures count == CountTransparent(d, edges)
  {
    count := 0;
    var j := 0;
    while j < |edges|
      invariant 0 <= j <= |edges|
      invariant count == CountTransparent(d, edges[..j])
    {
      assert edges[..j + 1][..j] == edges[..j];
      if 0 <= edges[j] < |d| && d[edges[j]] < 250 {
        count := count + 1;
      }
      j := j + 1;
    }
    assert edges[..j] == edges;
  }

  /** The loop over every alpha byte (`for (i = 3; i < data.length; i += 4)`). */
  method CountTransparentPixels(d: seq<byte>) returns (count: nat)
    requires |d| % 4 == 0
    ensures count == TransparentPixels(d, |d| / 4)
  {
    count := 0;
    var i := 3;
    while i < |d|
      invariant 3 <= i && i % 4 == 3 && i - 3 <= |d|
      invariant count == TransparentPixels(d, (i - 3) / 4)
    {
      assert 4 * ((i - 3) / 4) + 3 == i;
      if d[i] < 250 {
        count := count + 1;
      }
      i := i + 4;
    }
  }

  // ---- crop copy ----

  /**
   * Byte `i` of the cropped buffer: the pixel of `src` at the corresponding
   * position of `crop`, or transparent black where the crop reaches outside
   * the source image (a canvas `drawImage` clips its source rectangle).
   */
  function CropByte(src: seq<byte>, iw: nat, ih: nat, crop: IconGeometry.Rect, i: nat): byte
    requires |src| == 4 * (ih * iw) && crop.width > 0
  {
    var p := i / 4;
    var sx := crop.x + p % crop.width;
    var sy := crop.y + p / crop.width;
    if 0 <= sx < iw && 0 <= sy < ih then
      Arith.RowMajor(sy, sx, iw, ih);
      src[(sy * iw + sx) * 4 + i % 4]
    else 0
  }

  /** The `crop.width`×`crop.height` buffer `processImage` reads back from the cropped canvas. */
  function Cropped(src: seq<byte>, iw: nat, ih: nat, crop: IconGeometry.Rect): (r: seq<byte>)
    requires |src| == 4 * (ih * iw) && crop.width > 0 && crop.height > 0
    ensures |r| == 4 * (crop.height * crop.width)
  {
    assert crop.height * crop.width >= 0 by { Arith.MulLe(0, crop.height, crop.width); }
    seq(4 * (crop.height * crop.width), i requires 0 <= i => CropByte(src, iw, ih, crop, i))
  }

  /** The alpha byte of pixel `p` of a crop inside the image is the image's alpha at the matching position. */
  lemma CroppedAlpha(src: seq<byte>, iw: nat, ih: nat, crop: IconGeometry.Rect, p: nat)
    requires |src| == 4 * (ih * iw) && crop.width > 0 && crop.height > 0
    requires IconGeometry.Inside(crop, IconGeometry.Rect(0, 0, iw, ih))
    requires p < crop.height * crop.width
    ensures 4 * p + 3 < |Cropped(src, iw, ih, crop)|
    ensures 0 <= crop.x + p % crop.width < iw && 0 <= crop.y + p / crop.width < ih
    ensures InArea(crop.x + p % crop.width, crop.y + p / crop.width, crop)
    ensures Cropped(src, iw, ih, crop)[4 * p + 3]
      == Alpha(src, iw, ih, crop.x + p % crop.width, crop.y + p / crop.width)
  {
    Arith.DivUnique(4 * p + 3, 4, p, 3);
    assert (4 * p + 3) % 4 == 3;
    var row := p / crop.width;
    Arith.DivBounds(p, crop.width);
    if row >= crop.height {
      Arith.MulLe(crop.height, row, crop.width);
    }
  }
}
