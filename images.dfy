/** The integer image maths of the post-processing tools: the two rain
    masks, the crop preview that darkens everything outside a box, and the
    crop and shape checks `read_video` makes before it reads frames.  Pixel
    values are 8-bit; the frames themselves come from video files that are
    not read here. */
module Images {
  import opened Wrappers

  newtype byte = x: int | 0 <= x < 256

  /** An h x w x c image as nested rows, columns and channels. */
  type Frame = seq<seq<seq<byte>>>

  predicate IsFrame(f: Frame, h: nat, w: nat, c: nat) {
    |f| == h && forall y :: 0 <= y < h ==> |f[y]| == w && forall x :: 0 <= x < w ==> |f[y][x]| == c
  }

  /** `np.clip(v, lo, hi)`. */
  function Clip(v: int, lo: int, hi: int): int
    requires lo <= hi
  {
    if v < lo then lo else if v > hi then hi else v
  }

  // ---------------------------------------------------------------------
  // Rain masks

  /** `get_rain_mask`: `clip(rain - clean, 0, 255)` in int32, pixel by
      pixel and channel by channel. */
  function RainMask(rain: Frame, clean: Frame, h: nat, w: nat, c: nat): (m: seq<seq<seq<int>>>)
    requires IsFrame(rain, h, w, c) && IsFrame(clean, h, w, c)
    ensures |m| == h && forall y :: 0 <= y < h ==> |m[y]| == w && forall x :: 0 <= x < w ==> |m[y][x]| == c
  {
    seq(h, y requires 0 <= y < h =>
      seq(w, x requires 0 <= x < w =>
        seq(c, k requires 0 <= k < c => Clip(rain[y][x][k] as int - clean[y][x][k] as int, 0, 255))))
  }

  /** On 8-bit inputs the upper clip never bites: the mask is how much
      brighter the rainy frame is, or 0 where it is not brighter. */
  lemma RainMaskIsBrightening(rain: Frame, clean: Frame, h: nat, w: nat, c: nat, y: nat, x: nat, k: nat)
    requires IsFrame(rain, h, w, c) && IsFrame(clean, h, w, c)
    requires y < h && x < w && k < c
    ensures var m := RainMask(rain, clean, h, w, c)[y][x][k];
      var d := rain[y][x][k] as int - clean[y][x][k] as int;
      && (d > 0 ==> m == d)
      && (d <= 0 ==> m == 0)
      && 0 <= m <= 255
  {
  }

  /** `clip(dif[:, :, k], 0, 1)` where `dif = rain - (clean + 20)`: 1 where
      channel k of the rainy pixel is more than 20 above the clean one. */
  function Exceeds(rain: seq<byte>, clean: seq<byte>, k: nat): (r: int)
    requires k < |rain| && k < |clean|
    ensures r == 0 || r == 1
    ensures r == 1 <==> rain[k] as int > clean[k] as int + 20
  {
    Clip(rain[k] as int - (clean[k] as int + 20), 0, 1)
  }

  /** `np.minimum(dif_r, dif_g, dif_b)` at one pixel: the third positional
      argument of `np.minimum` is its output buffer, so only the first two
      channels are compared. */
  function BinaryPixel(rain: seq<byte>, clean: seq<byte>): int
    requires |rain| >= 3 && |clean| >= 3
  {
    var r := Exceeds(rain, clean, 0);
    var g := Exceeds(rain, clean, 1);
    if r <= g then r else g
  }

  /** The criterion the comment states: rainy in all three channels. */
  function BinaryPixelFixed(rain: seq<byte>, clean: seq<byte>): int
    requires |rain| >= 3 && |clean| >= 3
  {
    var r := Exceeds(rain, clean, 0);
    var g := Exceeds(rain, clean, 1);
    var b := Exceeds(rain, clean, 2);
    var rg := if r <= g then r else g;
    if rg <= b then rg else b
  }

  /** `get_rain_mask_binary` as written, an h x w mask. */
  function RainMaskBinary(rain: Frame, clean: Frame, h: nat, w: nat): (m: seq<seq<int>>)
    requires IsFrame(rain, h, w, 3) && IsFrame(clean, h, w, 3)
    ensures |m| == h && forall y :: 0 <= y < h ==> |m[y]| == w
    ensures forall y, x :: 0 <= y < h && 0 <= x < w ==>
      (m[y][x] == 1 <==> rain[y][x][0] as int > clean[y][x][0] as int + 20 && rain[y][x][1] as int > clean[y][x][1] as int + 20)
    ensures forall y, x :: 0 <= y < h && 0 <= x < w ==> m[y][x] == 0 || m[y][x] == 1
  {
    seq(h, y requires 0 <= y < h => seq(w, x requires 0 <= x < w => BinaryPixel(rain[y][x], clean[y][x])))
  }

  /** The binary mask with all three channels compared. */
  function RainMaskBinaryFixed(rain: Frame, clean: Frame, h: nat, w: nat): (m: seq<seq<int>>)
    requires IsFrame(rain, h, w, 3) && IsFrame(clean, h, w, 3)
    ensures |m| == h && forall y :: 0 <= y < h ==> |m[y]| == w
    ensures forall y, x :: 0 <= y < h && 0 <= x < w ==>
      (m[y][x] == 1 <==> forall k :: 0 <= k < 3 ==> rain[y][x][k] as int > clean[y][x][k] as int + 20)
    ensures forall y, x :: 0 <= y < h && 0 <= x < w ==> m[y][x] == 0 || m[y][x] == 1
  {
    seq(h, y requires 0 <= y < h => seq(w, x requires 0 <= x < w => BinaryPixelFixed(rain[y][x], clean[y][x])))
  }

  /** A pixel that is brighter only in its first two channels is marked as
      rain by the mask as written but not by the one the comment describes. */
  lemma BlueChannelIgnored()
    ensures var rain: Frame := [[[255, 255, 0]]];
      var clean: Frame := [[[0, 0, 0]]];
      && RainMaskBinary(rain, clean, 1, 1)[0][0] == 1
      && RainMaskBinaryFixed(rain, clean, 1, 1)[0][0] == 0
  {
    var rain: Frame := [[[255, 255, 0]]];
    var clean: Frame := [[[0, 0, 0]]];
    assert IsFrame(rain, 1, 1, 3) && IsFrame(clean, 1, 1, 3);
    assert !(rain[0][0][2] as int > clean[0][0][2] as int + 20);
  }

  // ---------------------------------------------------------------------
  // Crop boxes

  /** A crop box: left, right, top and bottom. */
  datatype Box = Box(l: int, r: int, t: int, b: int)

  /** Where a Python slice bound `i` lands on an axis of length n: negative
      bounds count from the end, and both kinds are clamped to the axis. */
  function SliceBound(i: int, n: nat): (k: nat)
    ensures k <= n
  {
    if i < 0 then (if i + n < 0 then 0 else i + n)
    else if i > n then n
    else i
  }

  /** `preview_crop`'s defaults: r = -1 is the width, b = -1 the height,
      and l = -1 or t = -1 is 0. */
  function Defaulted(c: Box, w: nat, h: nat): (d: Box)
    ensures d.r == (if c.r == -1 then w else c.r) && d.b == (if c.b == -1 then h else c.b)
    ensures d.l == (if c.l == -1 then 0 else c.l) && d.t == (if c.t == -1 then 0 else c.t)
  {
    Box(if c.l == -1 then 0 else c.l, if c.r == -1 then w else c.r,
        if c.t == -1 then 0 else c.t, if c.b == -1 then h else c.b)
  }

  /** Pixel (y, x) of an h x w image lies in one of the four slices the
      preview darkens: columns `0:l` or `r:w`, rows `0:t` or `b:h`. */
  predicate Darkened(c: Box, w: nat, h: nat, y: int, x: int) {
    var d := Defaulted(c, w, h);
    x < SliceBound(d.l, w) || SliceBound(d.r, w) <= x || y < SliceBound(d.t, h) || SliceBound(d.b, h) <= y
  }

  /** With a box inside the image, a pixel keeps its value exactly when it
      is inside the box. */
  lemma DarkenedOutsideBox(c: Box, w: nat, h: nat, y: int, x: int)
    requires 0 <= c.l <= w && 0 <= c.r <= w && 0 <= c.t <= h && 0 <= c.b <= h
    requires 0 <= y < h && 0 <= x < w
    ensures !Darkened(c, w, h, y, x) <==> c.l <= x < c.r && c.t <= y < c.b
  {
  }

  /** The default box `(0, -1, 0, -1)` darkens nothing. */
  lemma NoCropDarkensNothing(w: nat, h: nat, y: int, x: int)
    requires 0 <= y < h && 0 <= x < w
    ensures !Darkened(Box(0, -1, 0, -1), w, h, y, x)
  {
  }

  /** Other negative bounds count from the far edge, as slices do: a right
      bound of -2 darkens the last two columns. */
  lemma NegativeRightCountsFromEnd(w: nat, h: nat, y: int, x: int)
    requires w >= 2 && 0 <= y < h && 0 <= x < w
    ensures Darkened(Box(0, -2, 0, -1), w, h, y, x) <==> x >= w - 2
  {
  }

  /** `preview_crop[rows, cols, :] = image[rows, cols, :] / 3` for one box
      of rows y0..y1 and columns x0..x1: the new values come from the
      original image, whatever `out` held before, and are truncated when
      they are stored back into 8 bits. */
  method DarkenBox(image: array3<byte>, out: array3<byte>, y0: nat, y1: nat, x0: nat, x1: nat)
    requires out != image
    requires out.Length0 == image.Length0 && out.Length1 == image.Length1 && out.Length2 == image.Length2
    requires y0 <= y1 <= image.Length0 && x0 <= x1 <= image.Length1
    modifies out
    ensures forall i, j, k :: 0 <= i < out.Length0 && 0 <= j < out.Length1 && 0 <= k < out.Length2 ==>
      out[i, j, k] == if y0 <= i < y1 && x0 <= j < x1 then image[i, j, k] / 3 else old(out[i, j, k])
  {
    var y := y0;
    while y < y1
      invariant y0 <= y <= y1
      invariant forall i, j, k :: 0 <= i < out.Length0 && 0 <= j < out.Length1 && 0 <= k < out.Length2 ==>
        out[i, j, k] == if y0 <= i < y && x0 <= j < x1 then image[i, j, k] / 3 else old(out[i, j, k])
    {
      var x := x0;
      while x < x1
        invariant x0 <= x <= x1
        invariant forall i, j, k :: 0 <= i < out.Length0 && 0 <= j < out.Length1 && 0 <= k < out.Length2 ==>
          out[i, j, k] == if (y0 <= i < y || (i == y && j < x)) && x0 <= j < x1 then image[i, j, k] / 3 else old(out[i, j, k])
      {
        var ch := 0;
        while ch < out.Length2
          invariant 0 <= ch <= out.Length2
          invariant forall i, j, k :: 0 <= i < out.Length0 && 0 <= j < out.Length1 && 0 <= k < out.Length2 ==>
            out[i, j, k] == if (y0 <= i < y || (i == y && (j < x || (j == x && k < ch)))) && x0 <= j < x1
                            then image[i, j, k] / 3 else old(out[i, j, k])
        {
          out[y, x, ch] := image[y, x, ch] / 3;
          ch := ch + 1;
        }
        x := x + 1;
      }
      y := y + 1;
    }
  }

  /** `preview_crop(image, l, r, t, b)` without the display: a copy of the
      image whose pixels outside the box are a third as bright. */
  method PreviewCrop(image: array3<byte>, c: Box) returns (out: array3<byte>)
    ensures fresh(out)
    ensures out.Length0 == image.Length0 && out.Length1 == image.Length1 && out.Length2 == image.Length2
    ensures forall i, j, k :: 0 <= i < out.Length0 && 0 <= j < out.Length1 && 0 <= k < out.Length2 ==>
      out[i, j, k] == if Darkened(c, image.Length1, image.Length0, i, j) then image[i, j, k] / 3 else image[i, j, k]
  {
    var h, w := image.Length0, image.Length1;
    out := new byte[h, w, image.Length2]((i, j, k) reads image
      requires 0 <= i < image.Length0 && 0 <= j < image.Length1 && 0 <= k < image.Length2 => image[i, j, k]);
    var l, r, t, b := c.l, c.r, c.t, c.b;
    if r == -1 { r := w; }
    if b == -1 { b := h; }
    if l == -1 { l := 0; }
    if t == -1 { t := 0; }
    DarkenBox(image, out, 0, h, 0, SliceBound(l, w));
    DarkenBox(image, out, 0, h, SliceBound(r, w), w);
    DarkenBox(image, out, 0, SliceBound(t, h), 0, w);
    DarkenBox(image, out, SliceBound(b, h), h, 0, w);
  }

  // ---------------------------------------------------------------------
  // read_video's checks

  /** Why `read_video` gives up or raises before reading frames. */
  datatype VideoError =
    | BadCrop             // returns (False, [0]) for r <= l or b <= t
    | BadVideo            // returns (False, [0]) for a frame count of 0
    | NegativeDimension   // `np.zeros` with a negative size raises
    | ShapeMismatch       // `frames[i] = frame` cannot broadcast the cropped frame

  /** The array `read_video` fills: frame count, height and width. */
  datatype Shape = Shape(frames: int, height: int, width: int)

  /** A cropped axis of length `have` can be stored into one of length
      `want` (numpy broadcasting). */
  predicate Broadcasts(have: nat, want: int) {
    have == want || have == 1
  }

  /** The part after the crop test: replace negative r and b by the frame
      size, allocate, and check that a cropped frame fits. */
  function Allocate(c: Box, start: int, end: int, widthMax: nat, heightMax: nat): (r: Result<Shape, VideoError>)
    ensures r.Ok? ==> r.value.frames == end - start && r.value.frames >= 0
    ensures r.Ok? ==> r.value.width == (if c.r < 0 then widthMax else c.r) - c.l
    ensures r.Ok? ==> r.value.height == (if c.b < 0 then heightMax else c.b) - c.t
  {
    var right := if c.r < 0 then widthMax else c.r;
    var bottom := if c.b < 0 then heightMax else c.b;
    var height := bottom - c.t;
    var width := right - c.l;
    var n := end - start;
    if n < 0 || height < 0 || width < 0 then Err(NegativeDimension)
    else
      var sh := if SliceBound(bottom, heightMax) < SliceBound(c.t, heightMax) then 0 else SliceBound(bottom, heightMax) - SliceBound(c.t, heightMax);
      var sw := if SliceBound(right, widthMax) < SliceBound(c.l, widthMax) then 0 else SliceBound(right, widthMax) - SliceBound(c.l, widthMax);
      if n > 0 && !(Broadcasts(sh, height) && Broadcasts(sw, width)) then Err(ShapeMismatch)
      else Ok(Shape(n, height, width))
  }

  /** `read_video` as written up to the frame loop: the crop test runs on
      the raw bounds, before a negative r or b is replaced by the frame
      size. */
  function ReadVideo(c: Box, start: int, end: int, frameCount: int, widthMax: nat, heightMax: nat): (r: Result<Shape, VideoError>)
    ensures c.r <= c.l || c.b <= c.t ==> r == Err(BadCrop)
    ensures !(c.r <= c.l || c.b <= c.t) && frameCount == 0 ==> r == Err(BadVideo)
    ensures r.Ok? ==> r.value.frames == end - start
  {
    if c.r <= c.l || c.b <= c.t then Err(BadCrop)
    else if frameCount == 0 then Err(BadVideo)
    else Allocate(c, start, end, widthMax, heightMax)
  }

  /** The order the replacement code implies: negative r and b mean the
      whole width and height, and the crop test sees the replaced bounds. */
  function ReadVideoFixed(c: Box, start: int, end: int, frameCount: int, widthMax: nat, heightMax: nat): (r: Result<Shape, VideoError>)
    ensures r.Ok? ==> r.value.frames == end - start && r.value.height > 0 && r.value.width > 0
  {
    var right := if c.r < 0 then widthMax else c.r;
    var bottom := if c.b < 0 then heightMax else c.b;
    if right <= c.l || bottom <= c.t then Err(BadCrop)
    else if frameCount == 0 then Err(BadVideo)
    else Allocate(c, start, end, widthMax, heightMax)
  }

  /** A scene row whose crop is the whole frame, written with the -1
      defaults, is rejected as a bad crop by the code as written ... */
  lemma WholeFrameRejected(start: int, end: int, frameCount: int, widthMax: nat, heightMax: nat)
    ensures ReadVideo(Box(0, -1, 0, -1), start, end, frameCount, widthMax, heightMax) == Err(BadCrop)
  {
  }

  /** ... and gives frames of the full size once the bounds are replaced
      first. */
  lemma WholeFrameAcceptedFixed(start: int, end: int, frameCount: int, widthMax: nat, heightMax: nat)
    requires frameCount != 0 && start <= end && widthMax > 0 && heightMax > 0
    ensures ReadVideoFixed(Box(0, -1, 0, -1), start, end, frameCount, widthMax, heightMax) == Ok(Shape(end - start, heightMax, widthMax))
  {
  }

  /** For a box inside the frame both orders agree, and the cropped frames
      have exactly the box's size. */
  lemma BoxInsideFrame(c: Box, start: int, end: int, frameCount: int, widthMax: nat, heightMax: nat)
    requires 0 <= c.l < c.r <= widthMax && 0 <= c.t < c.b <= heightMax
    requires frameCount != 0 && start <= end
    ensures ReadVideo(c, start, end, frameCount, widthMax, heightMax) == ReadVideoFixed(c, start, end, frameCount, widthMax, heightMax)
    ensures ReadVideo(c, start, end, frameCount, widthMax, heightMax) == Ok(Shape(end - start, c.b - c.t, c.r - c.l))
  {
  }
}
