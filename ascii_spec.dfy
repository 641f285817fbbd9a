/**
  The frame-to-text conversion of `AsciiEffect` as pure functions: how the
  options resolve, how a frame of `width x height` pixels is cut into cells,
  how each cell's average luma is taken from the flat RGBA buffer and mapped
  onto the character ramp, and how the rows are joined.

  The two copies of the effect differ only in what `Variant` records.
 */
module AsciiSpec {
  import opened JsMath

  /** One channel value of the RGBA buffer (a `Uint8ClampedArray` element). */
  newtype Byte = x: int | 0 <= x < 256

  /** The two copies of the effect: `src/App.js` and `index.js`. */
  datatype Variant = AppJs | IndexJs

  /** The resolution used when the option is missing or falsy. */
  function DefaultResolution(v: Variant): real
  {
    match v
    case AppJs => 0.15
    case IndexJs => 0.20
  }

  /** Only the `src/App.js` copy skips conversion when a dimension is 0. */
  predicate HasZeroGuard(v: Variant)
  {
    v == AppJs
  }

  /** Only the `index.js` copy reports a failed pixel read on the console. */
  predicate LogsReadError(v: Variant)
  {
    v == IndexJs
  }

  const DefaultRamp: string := " .:-=+*#%@"

  /** Characters are taken to be twice as tall as wide. */
  const CharHeightRatio: int := 2

  const ReadErrorMessage: string := "AsciiEffect: Could not get image data."

  /** The options object as the caller passes it. `None` stands for a missing,
      `undefined` or otherwise falsy non-number value; a falsy number is `Some(0.0)`. */
  datatype Options = Options(
    resolution: Option<real>,
    invert: Option<bool>,
    scale: Option<real>,
    color: Option<bool>,
    alpha: Option<bool>,
    block: Option<bool>)

  /** What the conversion reads: the ramp, the resolution and the invert flag. */
  datatype Config = Config(ramp: string, resolution: real, invert: bool)

  /** Options that `index.js` resolves but never reads again. */
  datatype Extras = Extras(scale: real, color: bool, alpha: bool, block: bool)

  /** The defaults of the effect's factory: a missing charset becomes the default
      ramp, a falsy resolution the variant's default, a falsy invert `false`. */
  function Resolve(v: Variant, charSet: Option<string>, o: Options): (c: Config)
    ensures c.resolution != 0.0
    ensures o.resolution.Some? && o.resolution.value != 0.0 ==> c.resolution == o.resolution.value
    ensures o.resolution.None? || o.resolution.value == 0.0 ==> c.resolution == DefaultResolution(v)
    ensures c.invert <==> o.invert == Some(true)
    ensures charSet.None? ==> c.ramp == DefaultRamp
    ensures charSet.Some? ==> c.ramp == charSet.value
  {
    Config(
      if charSet.Some? then charSet.value else DefaultRamp,
      if o.resolution.None? || o.resolution.value == 0.0 then DefaultResolution(v) else o.resolution.value,
      o.invert == Some(true))
  }

  /** The defaults `index.js` gives the options it never uses. */
  function ResolveExtras(o: Options): (e: Extras)
    ensures e.scale != 0.0
    ensures o.scale.None? || o.scale.value == 0.0 ==> e.scale == 1.0
    ensures o.scale.Some? && o.scale.value != 0.0 ==> e.scale == o.scale.value
    ensures e.color <==> o.color == Some(true)
    ensures e.alpha <==> o.alpha == Some(true)
    ensures e.block <==> o.block == Some(true)
  {
    Extras(
      if o.scale.None? || o.scale.value == 0.0 then 1.0 else o.scale.value,
      o.color == Some(true),
      o.alpha == Some(true),
      o.block == Some(true))
  }

  /** A frame: its pixel size and the RGBA bytes the pixel read returned. */
  datatype Frame = Frame(width: nat, height: nat, data: seq<Byte>)

  /** Cell counts across and down, and the pixel step between cells. */
  datatype Layout = Layout(cellsX: int, cellsY: int, deltaX: int, deltaY: int)

  function CellsX(resolution: real, width: nat): int
  {
    Round(resolution * width as real)
  }

  function CellsY(resolution: real, height: nat): int
  {
    Round(resolution * height as real / CharHeightRatio as real)
  }

  /** `Math.round(extent / cells)`. With no cells the quotient is Infinity or NaN
      in JavaScript, but then no cell is visited and the step is never used. */
  function Delta(extent: nat, cells: int): int
  {
    if cells == 0 then 0 else Round(extent as real / cells as real)
  }

  function LayoutOf(resolution: real, width: nat, height: nat): Layout
  {
    var cx := CellsX(resolution, width);
    var cy := CellsY(resolution, height);
    Layout(cx, cy, Delta(width, cx), Delta(height, cy))
  }

  /** The number of blanks the text is pre-filled with on a resize. */
  function PrefillLength(resolution: real, width: nat, height: nat): nat
  {
    Iterations(CellsX(resolution, width) * CellsY(resolution, height))
  }

  /** Reading one channel: past either end of the buffer it is `undefined`, and
      arithmetic on it gives NaN. */
  function Channel(data: seq<Byte>, k: int): Number
  {
    if 0 <= k < |data| then Num(data[k] as real) else NaN
  }

  /** Broadcast luma of one pixel. */
  function Luma(r: Number, g: Number, b: Number): Number
  {
    if r.Num? && g.Num? && b.Num? then Num(0.299 * r.value + 0.587 * g.value + 0.114 * b.value)
    else NaN
  }

  /** Flat index of the red channel of pixel `(posX + i, posY + j)`. */
  function SampleOffset(width: nat, posX: int, posY: int, i: int, j: int): int
  {
    ((posY + j) * width + (posX + i)) * 4
  }

  /** Luma of the pixel whose red channel is at `offset`; alpha is never read. */
  function SampleLuma(data: seq<Byte>, offset: int): Number
  {
    Luma(Channel(data, offset), Channel(data, offset + 1), Channel(data, offset + 2))
  }

  /** The running light total after adding the first `n` pixels of row `j` of a
      cell to `acc`. */
  function RowRun(acc: Number, data: seq<Byte>, width: nat, posX: int, posY: int, j: int, n: nat): Number
  {
    if n == 0 then acc
    else Add(RowRun(acc, data, width, posX, posY, j, n - 1),
             SampleLuma(data, SampleOffset(width, posX, posY, n - 1, j)))
  }

  /** The light total over the first `m` rows of `dX` pixels of a cell. */
  function BlockRun(data: seq<Byte>, width: nat, posX: int, posY: int, dX: nat, m: nat): Number
  {
    if m == 0 then Num(0.0)
    else RowRun(BlockRun(data, width, posX, posY, dX, m - 1), data, width, posX, posY, m - 1, dX)
  }

  /** How many pixels a cell visits. */
  function SampleCount(l: Layout): nat
  {
    Iterations(l.deltaY) * Iterations(l.deltaX)
  }

  /** The average luma of the `dX x dY` block at `(posX, posY)`; a block with no
      pixel keeps the undivided total 0. */
  function CellAverage(data: seq<Byte>, width: nat, posX: int, posY: int, dX: nat, dY: nat): Number
  {
    var sum := BlockRun(data, width, posX, posY, dX, dY);
    if dY * dX > 0 then Divide(sum, dY * dX) else sum
  }

  /** The layout a frame is cut into under configuration `c`. */
  function LayoutFor(c: Config, f: Frame): Layout
  {
    LayoutOf(c.resolution, f.width, f.height)
  }

  /** The average luma of cell `(x, y)` of layout `l`. */
  function CellLight(f: Frame, l: Layout, x: int, y: int): Number
  {
    CellAverage(f.data, f.width, x * l.deltaX, y * l.deltaY, Iterations(l.deltaX), Iterations(l.deltaY))
  }

  /** The ramp position for a light value: `Math.round` of the (possibly inverted)
      light scaled onto `0 .. rampLength - 1`; NaN has no position. */
  function CharIndex(invert: bool, rampLength: int, light: Number): Option<int>
  {
    match light
    case NaN => None
    case Num(l) => Some(Round(Scale(if invert then l else 255.0 - l, rampLength)))
  }

  /** A light value scaled from `0 .. 255` onto `0 .. rampLength - 1`. */
  function Scale(l: real, rampLength: int): real
  {
    l / 255.0 * (rampLength - 1) as real
  }

  /** `ramp[index] || ' '`: any index that is not a position of the ramp gives a blank. */
  function Lookup(ramp: string, index: Option<int>): (ch: char)
    ensures ch in ramp || ch == ' '
    ensures index.Some? && 0 <= index.value < |ramp| ==> ch == ramp[index.value]
    ensures (index.None? || index.value < 0 || index.value >= |ramp|) ==> ch == ' '
  {
    if index.Some? && 0 <= index.value < |ramp| then ramp[index.value] else ' '
  }

  /** The character of cell `(x, y)` of layout `l`. */
  function Glyph(c: Config, f: Frame, l: Layout, x: int, y: int): char
  {
    Lookup(c.ramp, CharIndex(c.invert, |c.ramp|, CellLight(f, l, x, y)))
  }

  /** The characters of all cells of layout `l`, as a function of `(x, y)`. */
  function Glyphs(c: Config, f: Frame, l: Layout): (int, int) -> char
  {
    (x: int, y: int) => Glyph(c, f, l, x, y)
  }

  /** `cell` shows the glyph of every cell of layout `l`. */
  ghost predicate ShowsGlyphs(cell: (int, int) -> char, c: Config, f: Frame, l: Layout)
  {
    forall x: int, y: int {:trigger Glyph(c, f, l, x, y)} :: cell(x, y) == Glyph(c, f, l, x, y)
  }

  /** The first `n` characters of row `y` of a grid whose cell `(x, y)` shows `cell(x, y)`. */
  function RowText(cell: (int, int) -> char, y: int, n: nat): string
  {
    if n == 0 then [] else RowText(cell, y, n - 1) + [cell(n - 1, y)]
  }

  /** The first `m` rows of such a grid, each of `columns` cells and a newline. */
  function FrameText(cell: (int, int) -> char, columns: nat, m: nat): string
  {
    if m == 0 then [] else FrameText(cell, columns, m - 1) + RowText(cell, m - 1, columns) + ['\n']
  }

  /** The number of glyphs per row: the trip count of the loop over `cellsX`. */
  function Columns(c: Config, f: Frame): nat
  {
    Iterations(LayoutFor(c, f).cellsX)
  }

  /** The number of rows: the trip count of the loop over `cellsY`. */
  function Rows(c: Config, f: Frame): nat
  {
    Iterations(LayoutFor(c, f).cellsY)
  }

  /** The text one successful conversion of frame `f` produces. */
  function Convert(c: Config, f: Frame): string
  {
    FrameText(Glyphs(c, f, LayoutFor(c, f)), Columns(c, f), Rows(c, f))
  }

  /** Where cell `(x, y)` lands in the converted text: each row before it
      takes `columns` glyphs and a newline. */
  function TextPos(x: int, y: int, columns: nat): int
  {
    y * (columns + 1) + x
  }
}
