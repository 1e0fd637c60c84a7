# Wall painter: a verified model of its pixel core

The wall painter lets a user recolour the walls in a photo. The repository does this in two ways.

- **The interactive painter** (`wall-detector/src/views/WallPainter.jsx`).
  - A click on the stage reads the RGBA colour under the pointer from the canvas bytes.
  - It then runs a stack-based, 4-connected flood fill.
  - Every pixel reachable from the click through pixels within tolerance 30 of that colour, on all four channels, is repainted with the picked colour at full opacity.
- **The plain-script detector** (`script.js`).
  - OpenCV finds the external contours of the uploaded image.
  - The loop over them keeps the first contour of strictly largest positive area as the wall.
  - Every colour-picker input repaints the pixels *outside* the wall's filled mask into a clone of the image.

The model is written in Dafny and has five modules.

| module | file | contents |
|---|---|---|
| `Wrappers` | `wrappers.dfy` | `Option`. `None` stands for JavaScript's `undefined` and `NaN`. |
| `Pixels` | `pixels.dfy` | The `Byte` type and the integer facts behind row-major pixel numbering. |
| `HexColor` | `hex_color.dfy` | JavaScript's `parseInt(s, 16)`, `ToInt32`, `>>` and `& 255`. Both hex-to-colour helpers use them. Also the `#rrggbb` string a colour picker reports. |
| `WallPainter` | `wall_painter.dfy` | `getColorAtPos`, `floodFill` (with `getIndex`, `matchColor` and `setColor`), `hexToRgba` and `handleStageClick`. |
| `WallDetection` | `wall_detection.dfy` | The largest-area loop, the recolour-outside-mask pass, `hexToRgb`, and the script's global state as a class `Session`. |

The flood fill is an imperative method over the canvas's byte array, changed in place.

- It keeps the source's explicit stack and its `visited` array.
- Its postcondition says the fill paints the region and only the region:
  - the region is the set of pixels reachable from the seed by a 4-connected trail;
  - every pixel on that trail lies inside the image and matches the target colour in the image as it was before the fill;
  - a byte of a region pixel becomes the fill colour with alpha 255, and every other byte keeps its old value.
- Ghost results record the pixels in the order they are painted. The postcondition proves that each is painted once and that the loop pops exactly `4 * painted + 1` coordinates.
- The loop compares against the canvas as it changes, as the source does. The proof shows this agrees with the original image, because a pixel is repainted only after it is marked visited.

## Model

| member | source | states |
|---|---|---|
| HexColor.ParseInt16 | wall-detector/src/views/WallPainter.jsx:146 | `parseInt(s, 16)`: an empty string is NaN (`None`); a string of hex digits only gives its positional hexadecimal value |
| HexColor.TrimStart | wall-detector/src/views/WallPainter.jsx:146 | The result is a suffix of the input; everything dropped is ECMAScript white space; the result does not start with white space |
| HexColor.HexPrefixLength | wall-detector/src/views/WallPainter.jsx:146 | `parseInt` reads the longest prefix of hex digits: the prefix is all digits, and the next character, if any, is not one |
| HexColor.ValueOf | wall-detector/src/views/WallPainter.jsx:146 | The value of `n` hex digits is below `16^n` |
| HexColor.DigitValue | wall-detector/src/views/WallPainter.jsx:146 | A hexadecimal digit (either case) is worth less than 16 |
| HexColor.SliceFrom1 | wall-detector/src/views/WallPainter.jsx:146 | `hex.slice(1)` is the input without its first character |
| HexColor.ToInt32 | wall-detector/src/views/WallPainter.jsx:147 | The operand conversion of `>>` and `&`: a signed 32-bit value congruent to the input modulo 2^32, and the identity on `[0, 2^31)` |
| HexColor.AllDigitsRead | wall-detector/src/views/WallPainter.jsx:146 | A non-empty string of hex digits has no white space, sign or `0x` for `parseInt` to skip, and its whole length is read |
| HexColor.ShiftRight | wall-detector/src/views/WallPainter.jsx:147 | `v >> k` is floor division by `2^k`: the result `r` has `r * 2^k <= v < (r + 1) * 2^k`, negative `v` included |
| HexColor.LowByte | wall-detector/src/views/WallPainter.jsx:147 | `v & 255` is the byte in `[0, 255]` congruent to `v` modulo 256, i.e. the low eight bits of the two's complement |
| HexColor.ByteOf | wall-detector/src/views/WallPainter.jsx:147 | `(bigint >> k) & 255`: 0 when `bigint` is NaN; for a value in `[0, 2^31)` it is `(v / 2^k) mod 256` |
| HexColor.SixDigitValue | wall-detector/src/views/WallPainter.jsx:146 | Six hex digits are the number `pair0 * 65536 + pair1 * 256 + pair2` of their digit pairs |
| HexColor.ThreeBytes | wall-detector/src/views/WallPainter.jsx:147 | `(v >> 16) & 255`, `(v >> 8) & 255` and `v & 255` recover the three bytes of a 24-bit number |
| HexColor.SixDigitBytes | wall-detector/src/views/WallPainter.jsx:146-147 | Parsing six hex digits and masking gives exactly the three digit pairs |
| HexColor.FormatHex | wall-detector/src/views/WallPainter.jsx:155 | The picker's `color.hex`: seven characters, `#` then six hex digits whose pairs are the red, green and blue bytes |
| WallPainter.IndexInRange | wall-detector/src/views/WallPainter.jsx:89 | `getIndex` numbers an in-bounds pixel within `[0, width * height)`, and the number decodes back to the same pixel |
| WallPainter.PointAtInRange | wall-detector/src/views/WallPainter.jsx:89 | Every number in `[0, width * height)` is `getIndex` of exactly one in-bounds pixel |
| WallPainter.GetColorAtPos | wall-detector/src/views/WallPainter.jsx:68-76 | The read is defined exactly when the pixel number `y * width + x` is inside the image. It is then the colour of that pixel, and for an in-bounds `(x, y)` it is the colour at `(x, y)` |
| WallPainter.ColorDistance | wall-detector/src/views/WallPainter.jsx:91-103 | The largest per-channel difference, alpha included; it is 0 exactly when the colours are equal |
| WallPainter.MatchColor | wall-detector/src/views/WallPainter.jsx:91-103 | `matchColor` holds exactly when every channel, alpha included, is within tolerance, i.e. the largest channel difference is at most the tolerance |
| WallPainter.SetColor | wall-detector/src/views/WallPainter.jsx:105-110 | The four bytes at `index` become the colour's red, green, blue and 255; every other byte is unchanged |
| WallPainter.MarkVisited | wall-detector/src/views/WallPainter.jsx:129 | Setting `visited[getIndex(c)]` marks `c` and no other pixel |
| WallPainter.CountUnvisitedMark | wall-detector/src/views/WallPainter.jsx:129 | Marking an unvisited pixel lowers the number of unvisited pixels by one; this bounds the loop |
| WallPainter.ClosedContainsRegion | wall-detector/src/views/WallPainter.jsx:112-139 | With the stack empty, if the seed and every neighbour of a visited pixel are settled, then every pixel of the region was visited (induction on the trail) |
| WallPainter.FillStart | wall-detector/src/views/WallPainter.jsx:81-86 | The initial stack `[[x, y]]` with nothing visited satisfies the loop invariant |
| WallPainter.PaintingUnvisited | wall-detector/src/views/WallPainter.jsx:123 | An unvisited pixel still holds its original bytes, so `matchColor` on the live canvas agrees with the original image |
| WallPainter.FillSkip | wall-detector/src/views/WallPainter.jsx:116-126 | A dropped coordinate (off the image, visited, or not matching) leaves the canvas, the visited set and the painted list unchanged and keeps the invariant |
| WallPainter.PaintingVisit | wall-detector/src/views/WallPainter.jsx:132 | After `setColor`, exactly the visited pixels hold the fill colour with alpha 255 |
| WallPainter.CompleteVisit | wall-detector/src/views/WallPainter.jsx:134-138 | Pushing the right, left, lower and upper neighbours settles every neighbour of the newly visited pixel |
| WallPainter.SoundVisit | wall-detector/src/views/WallPainter.jsx:134-138 | Each pushed neighbour has a trail from the seed, and the newly visited pixel's trail shows it is in the region |
| WallPainter.LedgerVisit | wall-detector/src/views/WallPainter.jsx:128-138 | A painting pop adds the pixel to the painted list once, and its four pushes balance the pop count |
| WallPainter.FillVisit | wall-detector/src/views/WallPainter.jsx:128-138 | A painting pop (mark, `setColor`, four pushes) keeps the whole loop invariant |
| WallPainter.FillEnd | wall-detector/src/views/WallPainter.jsx:112-142 | An empty stack means the canvas holds the fill colour exactly on the region, and the painted list is the region |
| WallPainter.FloodFill | wall-detector/src/views/WallPainter.jsx:79-143 | The bytes of the region (judged on the image before the fill) become the fill colour with alpha 255, all other bytes are unchanged, each region pixel is painted once, at most `width * height` pixels are painted, and the loop pops `4 * painted + 1` times |
| WallPainter.RegionNeedsSeed | wall-detector/src/views/WallPainter.jsx:117-125 | A non-empty region requires a seed that is inside the image and matches |
| WallPainter.OutOfBoundsSeed | wall-detector/src/views/WallPainter.jsx:117-121 | A seed outside the image has an empty region, so the fill changes nothing |
| WallPainter.SeedInRegion | wall-detector/src/views/WallPainter.jsx:50-61 | An in-bounds seed whose target colour was read at the seed is in its own region, for any tolerance of at least 0 |
| WallPainter.RegionLeavesSeed | wall-detector/src/views/WallPainter.jsx:134-138 | Any region pixel other than the seed is reached through one of the seed's four neighbours |
| WallPainter.IsolatedSeed | wall-detector/src/views/WallPainter.jsx:134-138 | If the seed matches and none of its four neighbours does, the region is exactly the seed |
| WallPainter.HexToRgba | wall-detector/src/views/WallPainter.jsx:145-148 | The alpha of the parsed colour is 255 |
| WallPainter.HexToRgbaDigits | wall-detector/src/views/WallPainter.jsx:145-148 | For `#RRGGBB` the red, green and blue channels are the values of the three digit pairs |
| WallPainter.HexToRgbaRoundTrip | wall-detector/src/views/WallPainter.jsx:145-148 | Parsing the picker's `#rrggbb` string of a colour gives that colour back, opaque |
| WallPainter.HexToRgbaNaN | wall-detector/src/views/WallPainter.jsx:146-147 | A string whose `slice(1)` parses to NaN gives opaque black |
| WallPainter.ShouldSkip | wall-detector/src/views/WallPainter.jsx:117-124 | A coordinate off the image is always dropped; a coordinate is kept exactly when it lies inside the image, is unvisited, and matches the target on the live canvas at its own pixel number |
| WallPainter.SeedPainted | wall-detector/src/views/WallPainter.jsx:55-61 | When the seed is in the region, after the fill the seed pixel holds the fill colour with alpha 255 |
| WallPainter.HandleStageClick | wall-detector/src/views/WallPainter.jsx:43-65 | A click outside the image changes nothing. A click inside paints exactly the region of the colour read at the click, with tolerance 30, in the picked colour. The clicked pixel itself ends up in the picked colour |
| WallDetection.HexToRgb | script.js:121-128 | For `#RRGGBB` the channels are each in `[0, 255]` and equal the three digit pairs |
| WallDetection.HexToRgbMatchesHexToRgba | script.js:121-128 | `hexToRgb` and the painter's `hexToRgba` agree on red, green and blue for every string |
| WallDetection.HexToRgbRoundTrip | script.js:121-128 | Parsing the picker's `#rrggbb` string of a colour gives that colour back |
| WallDetection.SelectLargestWall | script.js:36-45 | The index is -1 exactly when no area is positive. Otherwise the index is in range, its area is positive and at least every area, and every earlier area is strictly smaller |
| WallDetection.LargestWallUnique | script.js:36-45 | At most one index satisfies the selection, so the loop's result is determined by the areas |
| WallDetection.LargestWallTies | script.js:41 | Because the comparison is strict, an area equal to the chosen one never comes before it |
| WallDetection.BgrScalar | script.js:94-99 | The colour as the script builds it is the RGBA-ordered colour with red and blue swapped |
| WallDetection.RgbaScalar | script.js:94-99 | Channels 0 to 3 of the corrected colour are red, green, blue and 255 |
| WallDetection.Recolored | script.js:105-114 | The pass keeps the image size, and keeps channel 3 of every pixel and every channel of a pixel whose mask byte is 255 |
| WallDetection.RecolorOutsideMask | script.js:102-114 | The clone after the nested loops is exactly the recoloured image, `src` being a value that does not change |
| WallDetection.MaskedPixelUnchanged | script.js:105-114 | A pixel whose mask byte is 255 keeps all four channels |
| WallDetection.UnmaskedPixelRecolored | script.js:107-112 | A pixel whose mask byte is not 255 takes the colour's channels 0, 1 and 2 and keeps its own channel 3 |
| WallDetection.AlphaUnchanged | script.js:107-112 | Channel 3 of every pixel is left as it was |
| WallDetection.RecolorIdempotent | script.js:102-114 | Repeating the pass on its own result with the same mask and colour changes nothing |
| WallDetection.AsWrittenChannels | script.js:94-112 | As written, channels 0, 1 and 2 of a pixel outside the wall become the selected blue, green and red |
| WallDetection.RedHex | script.js:121-128 | `hexToRgb("#ff0000")` is red 255, green 0, blue 0 |
| WallDetection.AsWrittenRedShowsBlue | script.js:94-111 | As written, pure red (what `#ff0000` parses to, by `RedHex`) writes bytes (0, 0, 255) into the RGBA pixels outside the wall |
| WallDetection.CorrectedShowsSelected | script.js:94-112 | With the colour in RGBA order, the pixels outside the wall hold exactly the selected red, green and blue |
| WallDetection.Zeros | script.js:48 | `cv.Mat.zeros`: a mask of the given size, every byte 0 |
| WallDetection.Session.constructor | script.js:1 | Before an image loads there is no `src`, no wall is selected, and the canvas is empty |
| WallDetection.Session.ImageLoaded | script.js:8-83 | Keeps the image and its size, selects the wall exactly as `SelectLargestWall` does, sets the mask to the chosen contour's filled mask or all zeros when none was chosen, and shows the original image |
| WallDetection.Session.ColorInput | script.js:89-117 | Without an image or a wall the canvas is unchanged. Otherwise the canvas shows `src` recoloured outside the mask with the colour as the script builds it, `Scalar(b, g, r, 255)`: channels 0, 1 and 2 get the selected blue, green and red |

## Left out

- React, Konva and react-color wiring, file upload, image decoding, and `toDataURL` re-rendering. These are UI and I/O. The canvas is the byte array handed to `HandleStageClick`.
- Pointer input: `getPointerPosition` and `Math.round` are floating point. The click arrives as integer coordinates.
- `getImageData`/`putImageData`. The click handler and the fill each take a snapshot of the same canvas. The model reads and fills one array, since nothing changes the canvas between the two reads.
- WallPainter.HandleStageClick: when the colour read is `undefined` (`None`), the model does not call the fill. In the source the fill still runs. The read is `undefined` only when the seed is outside the image. There the fill's bounds test (WallPainter.jsx:117-121) drops its only pop before any colour comparison, so nothing is painted.
- The OpenCV calls (`imread`, `cvtColor`, `Canny`, `dilate`, `findContours`, `contourArea`, `drawContours`, `boundingRect`, `imshow`, `delete`) are foreign library code. The contour areas and each contour's filled mask are inputs to `Session.ImageLoaded`.
- The Edit button and colour-picker positioning (script.js:52-69) are DOM styling.
- WallDetection.Session.ImageLoaded: contour areas are exact `real`s, not IEEE doubles, so rounding of the area computation is not modelled.
- WallDetection.Session.constructor: `largestWallIndex` starts as `undefined` in the script. The model starts it at -1. Both make the colour handler return early, because `src` is absent too.
- HexColor.SliceFrom1: Dafny strings are sequences of Unicode scalar values, while JavaScript's `slice` counts UTF-16 code units. The two differ only when the first character lies outside the Basic Multilingual Plane, which a colour picker's `#rrggbb` string never does.
- HexColor.ParseInt16: numbers are exact integers. For inputs of more than 13 hexadecimal digits, JavaScript's `parseInt` rounds to the nearest double before `ToInt32`, and that rounding is not modelled.
- Behaviours the model keeps as the code has them:
  - The recolour pass leaves channel 3 as it was; it does not force full opacity.
  - A malformed colour string is not an error. After the first character, `parseInt` skips leading white space, one `+` or `-` and an optional `0x`/`0X`, then reads the longest run of hex digits. So `#fff` gives (0, 15, 255), `#12zz` gives (0, 0, 18), `#0x5` gives (0, 0, 5), `# ff` gives (0, 0, 255), and `#-ff` is -255, which gives (255, 255, 1). The result is NaN only when that run is empty, and NaN gives black (opaque black for the fill).
  - A seed outside the image is not an error: the fill simply paints nothing.
  - There is no dimension check: the mask and the image always have the same size, because the script builds the mask from the image.

## Findings

| source | as written | input that shows it | evidently intended | confidence | as-written member | corrected member |
|---|---|---|---|---|---|---|
| script.js:94-111 | The colour is built as `cv.Scalar(b, g, r, 255)` "for BGR" and written into channels 0..2 of the matrix from `cv.imread`. In OpenCV.js that matrix is RGBA, and `cv.imshow` shows it as RGBA | Pick `#ff0000` with a detected wall: every pixel outside the wall gets bytes (0, 0, 255), which displays as blue | The pixels outside the wall show the picked colour, so the channels should be written as (r, g, b) | medium, not executed | WallDetection.AsWrittenRedShowsBlue | WallDetection.CorrectedShowsSelected |

`Session.ColorInput` models the handler as written (`BgrScalar`). `CorrectedShowsSelected` states what the corrected order (`RgbaScalar`) would show.
