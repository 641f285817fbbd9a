# AsciiEffect: frame-to-text conversion

This project models the `AsciiEffect` of the portfolio page, a renderer wrapper
that turns each rendered frame into a block of monospace text. The effect
appears twice, in `src/App.js` and in `index.js`. The two copies differ in four
ways: the default resolution (0.15 or 0.20), whether a zero-size frame is
skipped (only `src/App.js`), whether a failed pixel read is logged (only
`index.js`), and the four extra options `scale`, `color`, `alpha` and `block`
that only `index.js` resolves and that never reach the output. One model covers both, with a `Variant` value that records these
differences.

The model is in four modules:

- `JsMath` (`jsmath.dfy`) holds the JavaScript arithmetic the converter relies
  on:
  - a number is either NaN or an exact real;
  - `Math.round` is `floor(x + 1/2)`;
  - `Iterations` is the trip count of a counting `for` loop.
- `AsciiSpec` (`ascii_spec.dfy`) is the conversion written as pure functions:
  - option defaults;
  - the cell layout;
  - sampling the RGBA buffer, including reads past its end, which give NaN;
  - the per-cell average luma and the ramp lookup with its `' '` fallback;
  - the text, which is rows of glyphs, each row followed by a newline.
- `AsciiEffects` (`ascii_effect.dfy`) is the imperative effect:
  - a class with the closure state (`width`, `height`, the displayed `text` and the console `log`);
  - methods for `setSize`, `initAscii` and `asciifyImage`;
  - the four nested accumulating loops, each proved against the functions above.
- `AsciiProperties` (`ascii_properties.dfy`) holds what the conversion guarantees:
  - the exact shape of the text;
  - the character set;
  - blank cells for reads past the buffer;
  - uniform, white and black frames;
  - how `invert` mirrors the ramp;
  - the prefill of a resize compared with the converted grid;
  - independence from alpha and from the unused options.

Behaviour that follows the code rather than the usual description of the effect:

- Inverting is usually described as mirroring the ramp index (`n - 1 - i`).
  Because `Math.round` rounds halves up, that holds only when the scaled light
  is not exactly halfway between two positions. At a halfway point the two
  indices sum to `n` (`InvertMirrorsIndex`, `InvertMirrorHalfwayExample`).
- The cell grid is not clipped to the frame. `Math.round` can make
  `cellsY * deltaY` exceed the height, so the bottom row of cells can read past
  the buffer. Such a cell gets a NaN light and shows a blank, whatever the
  frame holds (`PastEndIsBlank`, `BottomRowReadsPastEnd`).

## Model

| member | source | states |
|---|---|---|
| AsciiSpec.Resolve | src/App.js:7-10 | a missing charset gives the ramp `" .:-=+*#%@"`; a missing or zero resolution gives the variant's default (0.15 here, 0.20 in `index.js`) and any other value is kept; invert is set only by a true option |
| AsciiSpec.ResolveExtras | index.js:16-19 | a falsy `scale` becomes 1 and any other value is kept, and `color`, `alpha` and `block` become false unless set to true |
| AsciiProperties.ExtrasDoNotAffectOutput | index.js:15-20 | options that agree on `resolution` and `invert` resolve to the same configuration and so give the same text for every frame: `scale`, `color`, `alpha` and `block` never reach the output |
| JsMath.Round | src/App.js:94 | `Math.round(x)` is the integer `r` with `r - 1/2 <= x < r + 1/2` (halves go up) |
| JsMath.RoundReflect | src/App.js:94 | `round(x) + round(m - x)` is `m`, or `m + 1` exactly when `x` is halfway between integers |
| AsciiEffects.AsciiEffect.constructor | src/App.js:7-12 | the configuration is the resolved options; `index.js` also keeps its resolved extra options; the size starts at 0 x 0 with empty text and log |
| AsciiEffects.AsciiEffect.SetSize | src/App.js:24-32 | stores the new width and height, and the text becomes exactly `round(res * w) * round(res * h / 2)` blanks (none when that product is not positive) |
| AsciiEffects.AsciiEffect.InitAscii | src/App.js:34-52 | the text becomes exactly `PrefillLength` blanks and nothing else |
| AsciiEffects.AsciiEffect.AsciifyImage | src/App.js:59-100 | when `src/App.js` holds a zero dimension, or the pixel read throws, the text is unchanged; otherwise the text becomes `Convert` of the stored size and the buffer read, so nothing carries over from earlier frames; `index.js` (lines 80-94) has no zero-size guard, and there a throwing read appends the error message to the log, and only then |
| AsciiEffects.FrameToText | src/App.js:72-98 | the text the loops build is `Convert` of the frame |
| AsciiEffects.ComputeLayout | src/App.js:72-76 | the cell counts are `round(res * w)` and `round(res * h / 2)`, and the steps are `round(w / cellsX)` and `round(h / cellsY)` |
| AsciiEffects.DrawRows | src/App.js:77-98 | the row loop yields the first `cellsY` rows of glyphs, each row followed by a newline |
| AsciiEffects.DrawRow | src/App.js:78-96 | the cell loop yields the glyphs of cells `0 .. cellsX - 1` of row `y`, in order |
| AsciiEffects.AverageCell | src/App.js:81-93 | the light is the luma total of the cell's block, divided by the pixel count when that count is positive |
| AsciiEffects.SumCell | src/App.js:83-92 | the two inner loops give the block's luma total and a pixel count of `dY * dX` |
| AsciiEffects.SumRow | src/App.js:84-91 | one pass of the innermost loop adds the luma of `dX` pixels at offsets `((posY + j) * w + posX + i) * 4`, and counts each of them |
| AsciiSpec.Lookup | src/App.js:95 | `ramp[index] || ' '`: a ramp character for a valid index, a blank for a NaN or out-of-range index |
| AsciiProperties.ConvertLayout | src/App.js:77-98 | the text has exactly `Rows * (Columns + 1)` characters; cell `(x, y)` sits at `y * (Columns + 1) + x` with its glyph, and each row ends with a newline |
| AsciiProperties.ZeroSizeFrame | src/App.js:72-98 | as a property of the conversion alone: with no width the text is one bare newline per row; with no height it is empty (neither copy of the effect reaches the conversion at zero size) |
| AsciiProperties.ConvertChars | src/App.js:94-95 | every character of a converted text is a newline, a ramp character or a blank |
| AsciiProperties.PrefillMatchesGrid | src/App.js:36-51 | with a positive resolution the prefill holds one blank per cell, and a converted frame of the same size is that many glyphs plus one newline per row |
| AsciiProperties.CellAverageBounds | src/App.js:81-93 | a cell's light, when it is a number, lies in `0 .. 255` |
| AsciiProperties.CharIndexInRamp | src/App.js:94 | for a light in `0 .. 255` and a non-empty ramp, the rounded index is a valid ramp position, whichever way `invert` points |
| AsciiProperties.GlyphFromRamp | src/App.js:94-95 | with a non-empty ramp, a cell whose light is a number shows the ramp character at its rounded index; the blank fallback is never taken for it |
| AsciiProperties.InvertMirrorsIndex | src/App.js:94 | the inverted and plain indices sum to `n - 1` exactly when the scaled light is not halfway, and to `n` exactly when it is |
| AsciiProperties.InvertMirrorHalfwayExample | src/App.js:94 | with the default ramp, a light of 127.5 takes index 5 both with and without `invert` |
| AsciiProperties.PastEndIsBlank | src/App.js:85-95 | if any pixel a cell visits has a channel past the end of the buffer, the cell's light is NaN and it shows a blank |
| AsciiProperties.BottomRowReadsPastEnd | src/App.js:72-98 | at resolution 1 a black 1 x 3 frame converts to `"@\n \n"`: the bottom cell reads a fourth pixel row that the buffer lacks |
| AsciiProperties.AlphaIgnored | src/App.js:85-89 | frames whose buffers differ only in alpha bytes convert to the same text |
| AsciiProperties.UniformFrameGlyph | index.js:115-126 | in a uniform frame that is read only inside its buffer, every cell's light is the frame's luma (0 when a cell has no pixel), and its glyph is the ramp character for that light |
| AsciiProperties.UniformFrameText | src/App.js:85-98 | such a frame converts to one repeated character, apart from the row newlines |
| AsciiProperties.SamplesInsideInBuffer | src/App.js:75-88 | when the cells stay inside the frame and the buffer covers the frame, every channel read is inside the buffer |
| AsciiProperties.RampEnds | src/App.js:94-95 | white (255) selects the first ramp character and black (0) the last, swapped under `invert` |
| AsciiProperties.WhiteAndBlackFrames | src/App.js:85-95 | every cell of an all-white frame shows `ramp[0]` and every cell of an all-black frame shows `ramp[n - 1]`, swapped under `invert` |

## Left out

- The 3D scene, the ringing animation, page markup and CSS, and the React mount, resize and teardown lifecycle are not modelled. They are calls into three.js, the DOM and the browser's scheduler.
- The renderer and canvas plumbing is not modelled: `renderer.setSize`, the hidden canvas and its context, `clearRect`, `drawImage`, and `render`, which draws the scene before calling `asciifyImage`. The pixel read is an input that either yields a byte buffer of any length or throws.
- The styling of the text element in `initAscii` is not modelled. It is presentation only.
- Numbers are exact reals. IEEE-754 rounding of the luma weights, of the scaling and of the division by the pixel count is not modelled.
- AsciiEffects.AsciiEffect.SetSize: widths and heights are natural numbers. The sizes `src/App.js` takes from `contentRect` (src/App.js:530) can be fractional; then the flat index at src/App.js:85 is fractional for most pixel rows, the read gives `undefined`, and nearly every cell falls back to a blank. That behaviour is not modelled.
- AsciiEffects.AsciiEffect.AsciifyImage: the pixel read is a free input, so the model lets a read at zero size succeed. In `index.js`, which has no zero-size guard, `drawImage` of a zero-size canvas throws an error outside the `try` that nothing catches, and `getImageData` at zero size throws and is logged; the uncaught `drawImage` error is not modelled, and the text change the model admits for a successful zero-size read does not happen in the program.
- AsciiSpec.Lookup: the ramp is a sequence of Unicode characters. JavaScript measures and indexes it in UTF-16 code units (`sChars.length`, `sChars[i]`), so a ramp with a character outside the Basic Multilingual Plane gets a different length there and can yield lone surrogates. Every caller passes the ASCII default ramp, where the two agree.
- AsciiEffects.AsciiEffect.constructor: the size is `undefined` until the first `setSize`. The model starts at 0 x 0, because every caller sets the size before the first frame.
- AsciiSpec.Resolve: options are modelled as absent, a number or a boolean. A truthy non-boolean `invert`, or a NaN or string `resolution`, is not modelled.
- AsciiSpec.Resolve: a charset passed explicitly as `undefined` counts as missing. A charset given as something other than a string is not modelled.
- AsciiSpec.Delta: with no cells in a direction, JavaScript computes the step as Infinity or NaN. The model uses 0, because no cell in that direction is ever visited.
- The console message carries the caught exception object as a second argument. The model logs only the message string.
