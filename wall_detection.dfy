/**
 * The plain-script wall detector: after OpenCV has found the external contours of the
 * uploaded image, the contour of largest area is taken for the wall and its filled mask is
 * kept; every colour-picker input then repaints the pixels OUTSIDE that mask with the chosen
 * colour into a clone of the image, which is what the canvas shows.
 *
 * Images are OpenCV `CV_8UC4` matrices read by `cv.imread`, whose channels are in RGBA
 * order, stored row-major as `rows * cols * 4` bytes; the mask is a `CV_8UC1` matrix of
 * `rows * cols` bytes. Contour detection, area computation and mask drawing are foreign
 * library calls, so their results (the areas and the filled masks) are inputs here.
 */
module WallDetection {
  import opened Wrappers
  import opened Pixels
  import HexColor
  import WallPainter

  /** The `{r, g, b}` object returned by `hexToRgb`. */
  datatype Rgb = Rgb(r: Byte, g: Byte, b: Byte)

  /** A four-channel `cv.Scalar`; `[0]`..`[3]` are `v0`..`v3`. */
  datatype Scalar = Scalar(v0: Byte, v1: Byte, v2: Byte, v3: Byte)

  function ScalarChannel(s: Scalar, ch: int): Byte
  {
    if ch == 0 then s.v0 else if ch == 1 then s.v1 else if ch == 2 then s.v2 else s.v3
  }

  // ----- hexToRgb -----

  /**
   * `hexToRgb`: the three low bytes of `parseInt(hex.slice(1), 16)` as red, green and blue.
   * For `#RRGGBB` they are the values of the three digit pairs.
   */
  function HexToRgb(hex: string): (c: Rgb)
    ensures |hex| == 7 && HexColor.AllHexDigits(hex[1..]) ==>
      c == Rgb(HexColor.Pair(hex[1], hex[2]), HexColor.Pair(hex[3], hex[4]), HexColor.Pair(hex[5], hex[6]))
  {
    var bigint := HexColor.ParseInt16(HexColor.SliceFrom1(hex));
    var c := Rgb(HexColor.ByteOf(bigint, 16), HexColor.ByteOf(bigint, 8), HexColor.ByteOf(bigint, 0));
    assert |hex| == 7 && HexColor.AllHexDigits(hex[1..]) ==>
      c == Rgb(HexColor.Pair(hex[1], hex[2]), HexColor.Pair(hex[3], hex[4]), HexColor.Pair(hex[5], hex[6])) by {
      if |hex| == 7 && HexColor.AllHexDigits(hex[1..]) {
        assert HexColor.SliceFrom1(hex) == hex[1..];
        HexColor.SixDigitBytes(hex[1..]);
      }
    }
    c
  }

  /** The picker's `#rrggbb` string of a colour parses back to that colour. */
  lemma HexToRgbRoundTrip(c: Rgb)
    ensures HexToRgb(HexColor.FormatHex(c.r, c.g, c.b)) == c
  {
    var hex := HexColor.FormatHex(c.r, c.g, c.b);
    assert |hex| == 7 && HexColor.AllHexDigits(hex[1..]);
  }

  /** `hexToRgb` and the painter's `hexToRgba` agree on red, green and blue for every string. */
  lemma HexToRgbMatchesHexToRgba(hex: string)
    ensures var c := WallPainter.HexToRgba(hex); HexToRgb(hex) == Rgb(c.r, c.g, c.b)
  {
  }

  // ----- Choosing the wall -----

  /**
   * `k` is what the area loop leaves in `largestWallIndex`: -1 when no area is positive,
   * otherwise the first index of a positive area not exceeded by any other.
   */
  predicate IsLargestWall(areas: seq<real>, k: int)
  {
    if k == -1 then
      forall i :: 0 <= i < |areas| ==> areas[i] <= 0.0
    else
      && 0 <= k < |areas|
      && areas[k] > 0.0
      && (forall i :: 0 <= i < |areas| ==> areas[i] <= areas[k])
      && (forall i :: 0 <= i < k ==> areas[i] < areas[k])
  }

  /** The area loop: keep the index of the first area strictly greater than every earlier maximum, starting from 0. */
  method SelectLargestWall(areas: seq<real>) returns (largestWallIndex: int)
    ensures IsLargestWall(areas, largestWallIndex)
    ensures largestWallIndex == -1 <==> forall i :: 0 <= i < |areas| ==> areas[i] <= 0.0
  {
    largestWallIndex := -1;
    var maxArea := 0.0;
    for i := 0 to |areas|
      invariant -1 <= largestWallIndex < i
      invariant largestWallIndex == -1 ==> maxArea == 0.0
      invariant largestWallIndex != -1 ==> maxArea == areas[largestWallIndex] && maxArea > 0.0
      invariant forall j :: 0 <= j < i ==> areas[j] <= maxArea
      invariant forall j :: 0 <= j < largestWallIndex ==> areas[j] < maxArea
    {
      var area := areas[i];
      if area > maxArea {
        maxArea := area;
        largestWallIndex := i;
      }
    }
  }

  /** At most one index satisfies the selection, so the loop's answer is determined by the areas. */
  lemma LargestWallUnique(areas: seq<real>, k1: int, k2: int)
    requires IsLargestWall(areas, k1) && IsLargestWall(areas, k2)
    ensures k1 == k2
  {
    if k1 != -1 && k2 != -1 {
      assert areas[k1] <= areas[k2] && areas[k2] <= areas[k1];
    }
  }

  /** Every area is at most the selected one, and a later area equal to it does not displace it. */
  lemma LargestWallTies(areas: seq<real>, k: int, i: int)
    requires IsLargestWall(areas, k) && k != -1 && 0 <= i < |areas| && areas[i] == areas[k]
    ensures k <= i
  {
  }

  // ----- Recolouring outside the mask -----

  /** The colour as script.js builds it: `new cv.Scalar(b, g, r, 255)`. */
  function BgrScalar(c: Rgb): (s: Scalar)
    ensures s == RgbaScalar(Rgb(c.b, c.g, c.r))
  {
    Scalar(c.b, c.g, c.r, 255)
  }

  /** The colour in the channel order of the matrix `cv.imread` returns: `new cv.Scalar(r, g, b, 255)`. */
  function RgbaScalar(c: Rgb): (s: Scalar)
    ensures [ScalarChannel(s, 0), ScalarChannel(s, 1), ScalarChannel(s, 2), ScalarChannel(s, 3)] == [c.r, c.g, c.b, 255]
  {
    Scalar(c.r, c.g, c.b, 255)
  }

  /** Byte `i` of the image after the pass: channels 0..2 of a pixel whose mask byte is not 255 take the colour. */
  function RecoloredByte(src: seq<Byte>, mask: seq<Byte>, color: Scalar, i: int): Byte
    requires |src| == 4 * |mask| && 0 <= i < |src|
  {
    if mask[i / 4] != 255 && i % 4 < 3 then ScalarChannel(color, i % 4) else src[i]
  }

  /** The whole image after the recolour pass. */
  function Recolored(src: seq<Byte>, mask: seq<Byte>, color: Scalar): (out: seq<Byte>)
    requires |src| == 4 * |mask|
    ensures |out| == |src|
    ensures forall i :: 0 <= i < |src| && (i % 4 == 3 || mask[i / 4] == 255) ==> out[i] == src[i]
  {
    seq(|src|, i requires 0 <= i < |src| => RecoloredByte(src, mask, color, i))
  }

  /** The pixel `k` (its four channels) of an image. */
  function PixelOf(image: seq<Byte>, k: int): seq<Byte>
    requires 0 <= k && 4 * k + 4 <= |image|
  {
    image[4 * k .. 4 * k + 4]
  }

  /**
   * The colour-picker pass over a clone of `src`: for each row `i` and column `j` whose mask
   * byte is not 255, channels 0, 1 and 2 of pixel `(i, j)` become `color[0..2]`. `src` is
   * a value and stays as it was.
   */
  method RecolorOutsideMask(src: seq<Byte>, rows: nat, cols: nat, mask: seq<Byte>, color: Scalar)
    returns (result: array<Byte>)
    requires |mask| == rows * cols && |src| == 4 * |mask|
    ensures result[..] == Recolored(src, mask, color)
  {
    result := new Byte[|src|](k requires 0 <= k < |src| => src[k]);
    for i := 0 to rows
      invariant result.Length == |src|
      invariant forall k :: 0 <= k < |src| ==>
        result[k] == if k / 4 < i * cols then RecoloredByte(src, mask, color, k) else src[k]
    {
      for j := 0 to cols
        invariant forall k :: 0 <= k < |src| ==>
          result[k] == if k / 4 < i * cols + j then RecoloredByte(src, mask, color, k) else src[k]
      {
        RowMajorBound(i, j, rows, cols);
        var p := i * cols + j;
        if mask[p] != 255 {
          result[4 * p] := color.v0;
          result[4 * p + 1] := color.v1;
          result[4 * p + 2] := color.v2;
        }
        assert forall k :: 4 * p <= k < 4 * p + 4 ==> k / 4 == p && k % 4 == k - 4 * p;
      }
      assert i * cols + cols == (i + 1) * cols;
    }
    assert forall k :: 0 <= k < |src| ==> k / 4 < rows * cols;
  }

  /** A pixel inside the wall (mask byte 255) is exactly as it was. */
  lemma MaskedPixelUnchanged(src: seq<Byte>, mask: seq<Byte>, color: Scalar, k: int)
    requires |src| == 4 * |mask| && 0 <= k < |mask| && mask[k] == 255
    ensures PixelOf(Recolored(src, mask, color), k) == PixelOf(src, k)
  {
    assert (4 * k) / 4 == k && (4 * k + 1) / 4 == k && (4 * k + 2) / 4 == k && (4 * k + 3) / 4 == k;
  }

  /** A pixel outside the wall takes the colour's first three channels and keeps its own fourth. */
  lemma UnmaskedPixelRecolored(src: seq<Byte>, mask: seq<Byte>, color: Scalar, k: int)
    requires |src| == 4 * |mask| && 0 <= k < |mask| && mask[k] != 255
    ensures PixelOf(Recolored(src, mask, color), k) == [color.v0, color.v1, color.v2, src[4 * k + 3]]
  {
    assert (4 * k) / 4 == k && (4 * k + 1) / 4 == k && (4 * k + 2) / 4 == k && (4 * k + 3) / 4 == k;
    assert (4 * k) % 4 == 0 && (4 * k + 1) % 4 == 1 && (4 * k + 2) % 4 == 2 && (4 * k + 3) % 4 == 3;
  }

  /** The alpha channel of every pixel is left as it was. */
  lemma AlphaUnchanged(src: seq<Byte>, mask: seq<Byte>, color: Scalar, k: int)
    requires |src| == 4 * |mask| && 0 <= k < |mask|
    ensures Recolored(src, mask, color)[4 * k + 3] == src[4 * k + 3]
  {
    assert (4 * k + 3) / 4 == k && (4 * k + 3) % 4 == 3;
  }

  /** Running the pass again on its own result with the same mask and colour changes nothing. */
  lemma RecolorIdempotent(src: seq<Byte>, mask: seq<Byte>, color: Scalar)
    requires |src| == 4 * |mask|
    ensures Recolored(Recolored(src, mask, color), mask, color) == Recolored(src, mask, color)
  {
  }

  /** As written, a pixel outside the wall gets the selected blue, green and red in channels 0, 1 and 2. */
  lemma AsWrittenChannels(src: seq<Byte>, mask: seq<Byte>, c: Rgb, k: int)
    requires |src| == 4 * |mask| && 0 <= k < |mask| && mask[k] != 255
    ensures PixelOf(Recolored(src, mask, BgrScalar(c)), k) == [c.b, c.g, c.r, src[4 * k + 3]]
  {
    UnmaskedPixelRecolored(src, mask, BgrScalar(c), k);
  }

  /**
   * As written, script.js writes `Scalar(b, g, r, 255)` into the RGBA matrix, so choosing
   * pure red, which `#ff0000` parses to (`RedHex`), makes every pixel outside the wall
   * (0, 0, 255): pure blue on the canvas.
   */
  lemma AsWrittenRedShowsBlue(src: seq<Byte>, mask: seq<Byte>, k: int)
    requires |src| == 4 * |mask| && 0 <= k < |mask| && mask[k] != 255
    ensures PixelOf(Recolored(src, mask, BgrScalar(Rgb(255, 0, 0))), k)[..3] == [0, 0, 255]
  {
    AsWrittenChannels(src, mask, Rgb(255, 0, 0), k);
    assert [0, 0, 255, src[4 * k + 3]][..3] == [0, 0, 255];
  }

  /** The picker string of pure red. */
  lemma RedHex()
    ensures HexToRgb("#ff0000") == Rgb(255, 0, 0)
  {
    assert HexColor.HexChar(15) == 'f' && HexColor.HexChar(0) == '0';
    assert HexColor.FormatHex(255, 0, 0) == "#ff0000";
    HexToRgbRoundTrip(Rgb(255, 0, 0));
  }

  /** With the colour in RGBA order the pixels outside the wall show exactly the selected colour. */
  lemma CorrectedShowsSelected(src: seq<Byte>, mask: seq<Byte>, c: Rgb, k: int)
    requires |src| == 4 * |mask| && 0 <= k < |mask| && mask[k] != 255
    ensures PixelOf(Recolored(src, mask, RgbaScalar(c)), k)[..3] == [c.r, c.g, c.b]
  {
    UnmaskedPixelRecolored(src, mask, RgbaScalar(c), k);
  }

  // ----- The script's state -----

  /** A mask of `n` zero bytes: `cv.Mat.zeros(rows, cols, cv.CV_8UC1)`. */
  function Zeros(n: nat): (m: seq<Byte>)
    ensures |m| == n && forall k :: 0 <= k < n ==> m[k] == 0
  {
    seq(n, _ => 0)
  }

  /**
   * The script's global variables that the model keeps: the loaded image `src` (absent until
   * an image loads), its size, the wall mask, the chosen contour index and the canvas contents.
   */
  class Session {
    var src: Option<seq<Byte>>
    var rows: nat
    var cols: nat
    var mask: seq<Byte>
    var largestWallIndex: int
    var canvas: seq<Byte>

    predicate Valid()
      reads this
    {
      src.Some? ==> |src.value| == rows * cols * 4 && |mask| == rows * cols
    }

    /** Before any image is loaded. */
    constructor ()
      ensures Valid() && src == None && largestWallIndex == -1 && canvas == []
    {
      src, rows, cols, mask, largestWallIndex, canvas := None, 0, 0, [], -1, [];
    }

    /**
     * `img.onload`: keep the image, choose the contour of largest area and keep its filled
     * mask (all zeros when there is none), then show the original image. `areas[i]` and
     * `contourMasks[i]` are what OpenCV gives for contour `i`.
     */
    method ImageLoaded(image: seq<Byte>, imageRows: nat, imageCols: nat, areas: seq<real>, contourMasks: seq<seq<Byte>>)
      requires |image| == imageRows * imageCols * 4 && |contourMasks| == |areas|
      requires forall i :: 0 <= i < |contourMasks| ==> |contourMasks[i]| == imageRows * imageCols
      modifies this
      ensures Valid()
      ensures src == Some(image) && rows == imageRows && cols == imageCols
      ensures IsLargestWall(areas, largestWallIndex)
      ensures mask == if largestWallIndex == -1 then Zeros(imageRows * imageCols) else contourMasks[largestWallIndex]
      ensures canvas == image
    {
      src, rows, cols := Some(image), imageRows, imageCols;
      largestWallIndex := SelectLargestWall(areas);
      mask := Zeros(imageRows * imageCols);
      if largestWallIndex != -1 {
        mask := contourMasks[largestWallIndex];
      }
      canvas := image;
    }

    /**
     * The colour picker's `input` handler: nothing happens before an image is loaded or
     * when no wall was found; otherwise the canvas shows `src` recoloured outside the mask with
     * the colour as the script builds it, `Scalar(b, g, r, 255)`.
     */
    method ColorInput(hex: string)
      requires Valid()
      modifies this`canvas
      ensures Valid()
      ensures canvas == if src.None? || largestWallIndex == -1 then old(canvas)
                        else Recolored(src.value, mask, BgrScalar(HexToRgb(hex)))
    {
      if src.None? || largestWallIndex == -1 {
        return;
      }
      var selectedColor := HexToRgb(hex);
      var color := BgrScalar(selectedColor);
      assert |src.value| == 4 * |mask|;
      var result := RecolorOutsideMask(src.value, rows, cols, mask, color);
      var shown := result[..];
      canvas := shown;
    }
  }
}
