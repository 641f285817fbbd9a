/**
  The `AsciiEffect` object: the state its closures keep (the pixel size, the
  displayed text and, for `index.js`, the console) and the operations that
  update it. The renderer, the canvases and the DOM styling are not modelled;
  the pixel read is an input that either yields the RGBA buffer or throws.
 */
module AsciiEffects {
  import opened JsMath
  import opened AsciiSpec

  /** The outcome of `getImageData(0, 0, width, height).data`. */
  datatype PixelRead = Pixels(data: seq<Byte>) | ReadThrew

  class AsciiEffect {
    const variant: Variant
    const config: Config
    /** The options `index.js` resolves and never reads; `src/App.js` has none. */
    const extras: Option<Extras>
    /** `iWidth` and `iHeight`. */
    var width: nat
    var height: nat
    /** `oAscii.textContent`. */
    var text: string
    /** Messages written with `console.error`. */
    var log: seq<string>

    /** The factory: resolves the options. The sizes stay unset until `SetSize`,
        which every caller invokes before the first frame; they start at 0 here. */
    constructor (variant: Variant, charSet: Option<string>, options: Options)
      ensures this.variant == variant
      ensures config == Resolve(variant, charSet, options)
      ensures extras == if variant == IndexJs then Some(ResolveExtras(options)) else None
      ensures width == 0 && height == 0 && text == [] && log == []
    {
      this.variant := variant;
      config := Resolve(variant, charSet, options);
      extras := if variant == IndexJs then Some(ResolveExtras(options)) else None;
      width, height := 0, 0;
      text, log := [], [];
    }

    /** Records the new size and pre-fills the text with blanks. */
    method SetSize(w: nat, h: nat)
      modifies this`width, this`height, this`text
      ensures width == w && height == h
      ensures |text| == PrefillLength(config.resolution, w, h)
      ensures forall k :: 0 <= k < |text| ==> text[k] == ' '
    {
      width := w;
      height := h;
      InitAscii(w, h);
    }

    /** Replaces the text with one blank per cell of the new layout. */
    method InitAscii(w: nat, h: nat)
      modifies this`text
      ensures |text| == PrefillLength(config.resolution, w, h)
      ensures forall k :: 0 <= k < |text| ==> text[k] == ' '
    {
      var cellsX := Round(config.resolution * w as real);
      var cellsY := Round(config.resolution * h as real / CharHeightRatio as real);
      var s := "";
      var i := 0;
      while i < cellsX * cellsY
        invariant 0 <= i <= Iterations(cellsX * cellsY)
        invariant |s| == i
        invariant forall k :: 0 <= k < i ==> s[k] == ' '
      {
        s := s + " ";
        i := i + 1;
      }
      assert cellsX == CellsX(config.resolution, w);
      assert cellsY == CellsY(config.resolution, h);
      assert cellsX * cellsY == CellsX(config.resolution, w) * CellsY(config.resolution, h);
      text := s;
    }

    /** Converts one rendered frame. `src/App.js` first skips a zero-size frame;
        a pixel read that throws leaves the text as it was (and `index.js`
        logs it); otherwise the text becomes the converted frame. */
    method AsciifyImage(read: PixelRead)
      modifies this`text, this`log
      ensures (HasZeroGuard(variant) && (width == 0 || height == 0)) || read.ReadThrew? ==> text == old(text)
      ensures !(HasZeroGuard(variant) && (width == 0 || height == 0)) && read.Pixels? ==>
                text == Convert(config, Frame(width, height, read.data))
      ensures log == if !(HasZeroGuard(variant) && (width == 0 || height == 0)) && read.ReadThrew? && LogsReadError(variant)
                     then old(log) + [ReadErrorMessage] else old(log)
    {
      if HasZeroGuard(variant) && (width == 0 || height == 0) {
        return;
      }
      if read.ReadThrew? {
        if LogsReadError(variant) {
          log := log + [ReadErrorMessage];
        }
        return;
      }
      text := FrameToText(config, width, height, read.data);
    }
  }

  /** The conversion of one frame: the layout, then one glyph per cell, row by
      row, each row followed by a newline. */
  method FrameToText(config: Config, w: nat, h: nat, data: seq<Byte>) returns (s: string)
    ensures s == Convert(config, Frame(w, h, data))
  {
    var l := ComputeLayout(config.resolution, w, h);
    s := DrawRows(config, w, h, data, l, Glyphs(config, Frame(w, h, data), l));
  }

  /** The cell counts, rounded from the resolution, and the pixel step between cells. */
  method ComputeLayout(resolution: real, w: nat, h: nat) returns (l: Layout)
    ensures l == LayoutOf(resolution, w, h)
  {
    var cellsX := Round(resolution * w as real);
    var cellsY := Round(resolution * h as real / CharHeightRatio as real);
    var deltaX := if cellsX == 0 then 0 else Round(w as real / cellsX as real);
    var deltaY := if cellsY == 0 then 0 else Round(h as real / cellsY as real);
    l := Layout(cellsX, cellsY, deltaX, deltaY);
  }

  /** The loop over glyph rows, for the glyph function `cell` of the frame. */
  method DrawRows(config: Config, w: nat, h: nat, data: seq<Byte>, l: Layout, ghost cell: (int, int) -> char)
    returns (s: string)
    requires ShowsGlyphs(cell, config, Frame(w, h, data), l)
    ensures s == FrameText(cell, Iterations(l.cellsX), Iterations(l.cellsY))
  {
    s := "";
    var y := 0;
    while y < l.cellsY
      invariant 0 <= y <= Iterations(l.cellsY)
      invariant s == FrameText(cell, Iterations(l.cellsX), y)
    {
      var row := DrawRow(config, w, h, data, l, cell, y);
      s := s + row + "\n";
      y := y + 1;
    }
  }

  /** The loop over the cells of glyph row `y`. */
  method DrawRow(config: Config, w: nat, h: nat, data: seq<Byte>, l: Layout, ghost cell: (int, int) -> char, y: int)
    returns (row: string)
    requires ShowsGlyphs(cell, config, Frame(w, h, data), l)
    ensures row == RowText(cell, y, Iterations(l.cellsX))
  {
    var chars := config.ramp;
    var charLast := |chars| - 1;
    row := "";
    var x := 0;
    while x < l.cellsX
      invariant 0 <= x <= Iterations(l.cellsX)
      invariant row == RowText(cell, y, x)
    {
      var posX := x * l.deltaX;
      var posY := y * l.deltaY;
      var light := AverageCell(data, w, posX, posY, l.deltaX, l.deltaY);
      var index := CharIndex(config.invert, charLast + 1, light);
      assert Lookup(chars, index) == Glyph(config, Frame(w, h, data), l, x, y);
      row := row + [Lookup(chars, index)];
      x := x + 1;
    }
  }

  /** The light of one cell: the luma total over the `deltaX x deltaY` pixels at
      `(posX, posY)`, divided by the number of pixels visited when there is one. */
  method AverageCell(data: seq<Byte>, w: nat, posX: int, posY: int, deltaX: int, deltaY: int) returns (light: Number)
    ensures light == CellAverage(data, w, posX, posY, Iterations(deltaX), Iterations(deltaY))
  {
    var component;
    light, component := SumCell(data, w, posX, posY, deltaX, deltaY);
    if component > 0 {
      light := Divide(light, component);
    }
  }

  /** The two inner loops of the conversion: the luma total of one cell and the
      number of pixels it visits. */
  method SumCell(data: seq<Byte>, w: nat, posX: int, posY: int, deltaX: int, deltaY: int)
    returns (light: Number, component: int)
    ensures light == BlockRun(data, w, posX, posY, Iterations(deltaX), Iterations(deltaY))
    ensures component == Iterations(deltaY) * Iterations(deltaX)
  {
    light := Num(0.0);
    component := 0;
    var j := 0;
    while j < deltaY
      invariant 0 <= j <= Iterations(deltaY)
      invariant light == BlockRun(data, w, posX, posY, Iterations(deltaX), j)
      invariant component == j * Iterations(deltaX)
    {
      light, component := SumRow(light, component, data, w, posX, posY, j, deltaX);
      assert component == (j + 1) * Iterations(deltaX);
      j := j + 1;
    }
    assert j == Iterations(deltaY);
  }

  /** The innermost loop: adds the luma of the `deltaX` pixels of row `j` of a
      cell to the running total, counting each pixel. */
  method SumRow(light0: Number, component0: int, data: seq<Byte>, w: nat, posX: int, posY: int, j: int, deltaX: int)
    returns (light: Number, component: int)
    ensures light == RowRun(light0, data, w, posX, posY, j, Iterations(deltaX))
    ensures component == component0 + Iterations(deltaX)
  {
    light, component := light0, component0;
    var i := 0;
    while i < deltaX
      invariant 0 <= i <= Iterations(deltaX)
      invariant light == RowRun(light0, data, w, posX, posY, j, i)
      invariant component == component0 + i
    {
      var offset := ((posY + j) * w + (posX + i)) * 4;
      light := Add(light, Luma(Channel(data, offset), Channel(data, offset + 1), Channel(data, offset + 2)));
      component := component + 1;
      i := i + 1;
    }
  }
}
