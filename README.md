# tissues: colour, sampling, fit and export-name logic

This project models the parts of the `tissues` generative-art sketch (piece.js, a p5.js
program) whose behaviour can be stated without a browser or a drawing library:

- **Hex colour encoding** (`HexColor`): `componentToHex` and `rgbToHex`, built on JavaScript's
  `Number.prototype.toString(16)` for integers, plus a `#rrggbb` decoder used to state the
  round trip.
- **Bounded integer sampling** (`RandomDraw`): `cusrand`, with each `Math.random()` call
  replaced by one value of a caller-supplied draw stream of reals in [0, 1). The redraw loop
  is an imperative method proved against a specification function.
- **Palette generation** (`Palette`): `generateRandomColors`, computing the clamped
  saturation and brightness ranges and the `count` HSB triples. The p5 `color` object is
  replaced by an `Hsb` datatype.
- **Aspect-preserving fit** (`CanvasFit`): the size and centre that `fitGraphicsToCanvas`
  hands to `image`, in exact real arithmetic.
- **Export file name** (`ExportName`): `replace(/[:.]/g, '-')` on the ISO timestamp, then
  `tissues-<ts>.jpg`.

`Wrappers` holds the `Option` type. It stands for a null graphics buffer, an absent exclusion
list, and a draw stream that runs out.

Two edge cases of the code that the model keeps:

- Hue: `cusrand(0, 360)` can return 360 as well as 0, so `Palette.HueRange` is [0, 360], and
  `RandomDraw.DrawReaches` shows that 360 is reached.
- Colour count: `Array.from({length: count})` gives an empty array for a negative `count`, and
  `Palette.ArrayLength` does the same.

## Model

| member | source | states |
|---|---|---|
| HexColor.ToBase16 | piece.js:511 | `c.toString(16)` for c >= 0 is one or more lower-case hex digits, with a leading `0` only for c = 0 |
| HexColor.NumberToHexString | piece.js:511 | `c.toString(16)` for any integer; it starts with `-` exactly when c is negative |
| HexColor.ToBase16Value | piece.js:511 | reading back the digits `toString(16)` writes for a non-negative integer gives that integer |
| HexColor.ToBase16Length | piece.js:511-512 | `toString(16)` has one digit exactly below 16 and two digits exactly from 16 to 255, so only values below 16 get padded |
| HexColor.ComponentToHex | piece.js:510-513 | for every integer, including negative ones (`-5` gives `"-5"`), the result has at least two characters |
| HexColor.ComponentToHexCorrect | piece.js:510-513 | for c in [0, 255] the result is exactly two lower-case hex digits whose value is c; the first digit is `0` exactly when c < 16 |
| HexColor.RgbToHex | piece.js:515-517 | the result starts with `#` and has at least 7 characters |
| HexColor.RgbToHexRoundTrip | piece.js:515-517 | for components in [0, 255] the result is 7 characters, and decoding characters 1-2, 3-4 and 5-6 recovers `clr[0]`, `clr[1]`, `clr[2]` |
| HexColor.RgbToHexInjective | piece.js:515-517 | two valid triples with the same hex string have equal R, G and B |
| HexColor.HexToRgb | piece.js:515-517 | the decoder only accepts `#` plus six hex digits, and then yields three components in [0, 255] |
| RandomDraw.Draw | piece.js:448 | in exact arithmetic, the candidate `floor(u * (max - min + 1) + min)` lies in [min, max], both ends included, for min <= max and a draw u in [0, 1) (double rounding: see Left out) |
| RandomDraw.DrawWindow | piece.js:448 | the draw gives k exactly when u lies in a half-open window of width 1/(max - min + 1), so all values are equally likely |
| RandomDraw.DrawReaches | piece.js:448 | every k in [min, max] is produced by some draw in [0, 1) |
| RandomDraw.FirstAccepted | piece.js:449-454 | the value the redraw loop settles on is never in the exclusion list; there is none exactly when every draw of the stream is excluded |
| RandomDraw.FirstAcceptedInRange | piece.js:447-454 | with genuine draws and min <= max, the accepted value lies in [min, max] |
| RandomDraw.FullExclusionNeverAccepts | piece.js:449-452 | when the exclusion list covers all of [min, max], no draw is ever accepted (the source loops forever) |
| RandomDraw.Cusrand | piece.js:447-455 | without a list, one draw is made and its value returned; with one, the loop returns the first non-excluded candidate of the stream; `used` counts the draws made: every draw before the last one was excluded, and the whole stream was used when nothing was accepted |
| Palette.JitterRange | piece.js:206-209 | the range starts at `max(0, value - offset)`, never below 0, and ends at the slider value; for non-negative inputs it is non-empty and spans `min(offset, value)` |
| Palette.ArrayLength | piece.js:213 | the array length `Array.from` takes from `count`: 0 exactly when `count <= 0`, otherwise `count` |
| Palette.GenerateRandomColors | piece.js:204-220 | exactly `count` colours come out (0 for a negative count), three draws each |
| Palette.ColorsInRanges | piece.js:206-219 | in exact arithmetic, with non-negative inputs and genuine draws, every colour has hue in [0, 360], saturation in [satMin, satMax] and brightness in [briMin, briMax] (double rounding: see Left out) |
| Palette.EveryPaletteReachable | piece.js:213-219 | every sequence of `count` colours inside those ranges is produced by some stream of genuine draws |
| CanvasFit.Available | piece.js:318-319 | the canvas less twice the padding; with the default padding 0 it is the whole canvas, and a non-negative padding never enlarges it |
| CanvasFit.WiderThanAvailable | piece.js:322-328 | the test `graphicsRatio > canvasRatio` with JavaScript's division by zero (+Infinity, -Infinity or NaN); over a positive height it holds exactly when the graphics, scaled to the available height, are wider than the available width |
| CanvasFit.FitGraphicsToCanvas | piece.js:314-340 | nothing is drawn exactly when `graphics` is null; otherwise the image is centred at (width/2, height/2) |
| CanvasFit.FitEmptyCanvas | piece.js:322-336 | a canvas with no area left (the 0x0 canvas that a small window produces) gets a 0x0 image |
| CanvasFit.FitIsUndistorted | piece.js:318-336 | the drawn size fits the canvas less padding, touches it on at least one side, and keeps the graphics' aspect ratio |
| CanvasFit.FitIsLargest | piece.js:328-336 | no larger undistorted size fits: any fitting size with the same aspect ratio is no wider and no taller |
| ExportName.Sanitize | piece.js:161 | same length as the timestamp, `-` exactly where a `:` or `.` stood, everything else unchanged, and no `:` or `.` left |
| ExportName.SanitizeIdempotent | piece.js:161 | sanitising an already sanitised timestamp changes nothing |
| ExportName.ExportFilename | piece.js:163 | the file name is 12 characters longer than the timestamp |
| ExportName.FilenameRoundTrip | piece.js:161-163 | the name is `tissues-`, the sanitised timestamp, then `.jpg`, and reading the name back recovers the sanitised timestamp |
| ExportName.FilenameSingleDot | piece.js:161-163 | the only `.` in the file name is the one that starts `.jpg` |
| ExportName.FilenameInjective | piece.js:161-163 | two timestamps give the same file name exactly when their sanitised forms are equal |
| ExportName.IsoFilename | piece.js:160-163 | for a `toISOString()` timestamp only positions 13, 16 and 19 change (to `-`), and the file name is 36 characters long |

## Left out

- `Math.random()` is not modelled. Each call is a value of a draw stream passed in by the caller. `RandomDraw.Cusrand` returns `None` when the stream runs out while the candidate is still excluded; the source would keep drawing.
- RandomDraw.Draw, Palette.ColorsInRanges and RandomDraw.FirstAcceptedInRange: the [min, max] bound is proved for exact arithmetic only. In IEEE double arithmetic a draw of `1 - 2^-52`, a value below 1 that `Math.random()` can return, rounds `u * (max - min + 1) + min` up to `max + 1` for some ranges. For example `cusrand(55, 65)` gives 66 and `cusrand(80, 90)` gives 91, the saturation and brightness ranges of the default sliders, and `cusrand(120, 200)` gives 201. `cusrand(0, 360)` is not affected. So a generated saturation or brightness can exceed `satMax` or `briMax` by one.
- Floating point is not modelled otherwise. `cusrand`'s `u * (max - min + 1) + min` and the ratios in `fitGraphicsToCanvas` are exact `real` arithmetic, so IEEE rounding is not captured.
- CanvasFit.FitGraphicsToCanvas: requires a graphics buffer of positive size. A zero-size buffer would make `graphicsRatio` infinite or `NaN`, which exact reals cannot represent. The only call passes the 1255x1255 buffer created at piece.js:270. Canvas sizes of zero are modelled: `canvasSize` rounds down to 0 when the window's smaller side is under 314 pixels (piece.js:261-267). The division by zero in `canvasRatio` is then modelled by `CanvasFit.WiderThanAvailable`.
- Palette.ArrayLength: `Array.from` throws a `RangeError` for a length above 2^32 - 1; the model returns a sequence of that length instead. The only call passes 4.
- HexColor.RgbToHex: requires at least three entries. With fewer, the source calls `toString` on `undefined` and throws a `TypeError`.
- `componentToHex` on non-integer numbers (`toString(16)` writes a fractional part) is not modelled; the model takes integers. Nothing in piece.js calls `rgbToHex`, and only `rgbToHex` calls `componentToHex`, so no other caller's argument types constrain them.
- `cusrand`'s `arr.includes` is modelled as membership in a sequence of integers. Non-integer or `NaN` entries are not modelled.
- p5's `color("hsb(...)")` object is replaced by the `Hsb` triple it is built from; colour-space conversion is not modelled.
- The clock (`new Date().toISOString()`) is a parameter; `ExportName.IsIsoTimestamp` describes its shape for four-digit years.
- Not modelled because they are DOM, timer or drawing code over p5.js and the browser: the panel, slider and button handlers, the save toast, `drawCanvas`, `drawBackground`, `drawRotatedImage`, `applyNoise`, `updateCanvasSize`, `windowResized`, `setup`, `saveCanvas`, and the `image` call itself.
- `HSLToHex` and `HSLToRGB` are not modelled: they are floating-point colour math using `%`, `Math.abs`, `Math.min` and `Math.round`.
- `flip`, `half`, `floatrand` and `Array.prototype.random` are not modelled: they are bare random picks with nothing to state beyond their inputs.
