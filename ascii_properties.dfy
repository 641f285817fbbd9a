/**
  What the conversion guarantees: the shape of the text, the characters it can
  contain, when a cell falls back to a blank, what a uniform frame converts to,
  how the invert flag mirrors the ramp, and how the blank prefill of a resize
  relates to the grid a conversion fills.
 */
module AsciiProperties {
  import opened JsMath
  import opened AsciiSpec

  // ---------------------------------------------------------------------------
  // Shape of the converted text
  // ---------------------------------------------------------------------------

  /** Row `y` of `n` cells holds `cell(0, y) .. cell(n - 1, y)` in order. */
  lemma {:induction false} RowTextShape(cell: (int, int) -> char, y: int, n: nat)
    ensures |RowText(cell, y, n)| == n
    ensures forall k :: 0 <= k < n ==> RowText(cell, y, n)[k] == cell(k, y)
  {
    if n > 0 {
      RowTextShape(cell, y, n - 1);
    }
  }

  lemma TextPosNonNegative(x: int, y: int, columns: nat)
    requires 0 <= x && 0 <= y
    ensures 0 <= TextPos(x, y, columns)
  {
  }

  /** Every position of row `y`, its newline included, comes before row `z > y`. */
  lemma {:induction false} TextPosBelow(x: int, y: int, z: int, columns: nat)
    requires 0 <= x <= columns && 0 <= y < z
    ensures TextPos(x, y, columns) < TextPos(0, z, columns)
    decreases z
  {
    if y < z - 1 {
      TextPosBelow(x, y, z - 1, columns);
    }
    assert TextPos(0, z, columns) == TextPos(0, z - 1, columns) + columns + 1;
  }

  lemma {:induction false} FrameTextLength(cell: (int, int) -> char, columns: nat, m: nat)
    ensures |FrameText(cell, columns, m)| == TextPos(0, m, columns)
  {
    if m > 0 {
      FrameTextLength(cell, columns, m - 1);
      RowTextShape(cell, m - 1, columns);
      assert TextPos(0, m, columns) == TextPos(0, m - 1, columns) + columns + 1;
    }
  }

  /** Position `(k, y)` of the first `m` rows: cell `(k, y)`, or the newline
      that closes row `y` when `k == columns`. */
  lemma {:induction false} FrameTextAt(cell: (int, int) -> char, columns: nat, m: nat, y: int, k: int)
    requires 0 <= y < m && 0 <= k <= columns
    ensures TextPos(k, y, columns) < |FrameText(cell, columns, m)|
    ensures FrameText(cell, columns, m)[TextPos(k, y, columns)] == if k < columns then cell(k, y) else '\n'
  {
    var prev := FrameText(cell, columns, m - 1);
    var row := RowText(cell, m - 1, columns);
    var s := FrameText(cell, columns, m);
    var i := TextPos(k, y, columns);
    assert s == prev + row + ['\n'];
    FrameTextLength(cell, columns, m - 1);
    RowTextShape(cell, m - 1, columns);
    assert |s| == |prev| + columns + 1;
    TextPosNonNegative(k, y, columns);
    if y < m - 1 {
      FrameTextAt(cell, columns, m - 1, y, k);
      TextPosBelow(k, y, m - 1, columns);
      assert s[i] == prev[i];
    } else {
      assert i == |prev| + k;
      assert s[i] == (row + ['\n'])[k];
    }
  }

  /** In the first `m` rows, cell `(x, y)` sits at `TextPos(x, y)`. */
  lemma {:induction false} FrameTextCells(cell: (int, int) -> char, columns: nat, m: nat)
    ensures forall y, x {:trigger TextPos(x, y, columns)} :: 0 <= y < m && 0 <= x < columns ==>
              TextPos(x, y, columns) < |FrameText(cell, columns, m)| &&
              FrameText(cell, columns, m)[TextPos(x, y, columns)] == cell(x, y)
  {
    forall y, x | 0 <= y < m && 0 <= x < columns
      ensures TextPos(x, y, columns) < |FrameText(cell, columns, m)|
      ensures FrameText(cell, columns, m)[TextPos(x, y, columns)] == cell(x, y)
    {
      FrameTextAt(cell, columns, m, y, x);
    }
  }

  /** In the first `m` rows, each row is closed by a newline right after its cells. */
  lemma {:induction false} FrameTextNewlines(cell: (int, int) -> char, columns: nat, m: nat)
    ensures forall y {:trigger TextPos(columns, y, columns)} :: 0 <= y < m ==>
              TextPos(columns, y, columns) < |FrameText(cell, columns, m)| &&
              FrameText(cell, columns, m)[TextPos(columns, y, columns)] == '\n'
  {
    forall y | 0 <= y < m
      ensures TextPos(columns, y, columns) < |FrameText(cell, columns, m)|
      ensures FrameText(cell, columns, m)[TextPos(columns, y, columns)] == '\n'
    {
      FrameTextAt(cell, columns, m, y, columns);
    }
  }

  /** A successful conversion yields exactly `Rows` lines, each of exactly
      `Columns` glyphs followed by a newline: glyph `(x, y)` sits at
      `y * (Columns + 1) + x`. */
  lemma ConvertLayout(c: Config, f: Frame)
    ensures |Convert(c, f)| == Rows(c, f) * (Columns(c, f) + 1)
    ensures forall y, x {:trigger TextPos(x, y, Columns(c, f))} :: 0 <= y < Rows(c, f) && 0 <= x < Columns(c, f) ==>
              TextPos(x, y, Columns(c, f)) < |Convert(c, f)| &&
              Convert(c, f)[TextPos(x, y, Columns(c, f))] == Glyph(c, f, LayoutFor(c, f), x, y)
    ensures forall y {:trigger TextPos(Columns(c, f), y, Columns(c, f))} :: 0 <= y < Rows(c, f) ==>
              TextPos(Columns(c, f), y, Columns(c, f)) < |Convert(c, f)| &&
              Convert(c, f)[TextPos(Columns(c, f), y, Columns(c, f))] == '\n'
  {
    var cell := Glyphs(c, f, LayoutFor(c, f));
    FrameTextLength(cell, Columns(c, f), Rows(c, f));
    FrameTextCells(cell, Columns(c, f), Rows(c, f));
    FrameTextNewlines(cell, Columns(c, f), Rows(c, f));
  }

  /** If every cell of the first `m` rows shows a character of `allowed`, every
      character of those rows is a newline or in `allowed`. */
  lemma {:induction false} FrameTextWithin(cell: (int, int) -> char, columns: nat, m: nat, allowed: set<char>)
    requires forall y, x :: 0 <= y < m && 0 <= x < columns ==> cell(x, y) in allowed
    ensures forall k :: 0 <= k < |FrameText(cell, columns, m)| ==>
              FrameText(cell, columns, m)[k] == '\n' || FrameText(cell, columns, m)[k] in allowed
  {
    if m > 0 {
      FrameTextWithin(cell, columns, m - 1, allowed);
      RowTextShape(cell, m - 1, columns);
    }
  }

  /** Every character of a converted text is a newline, a ramp character or the
      blank fallback. */
  lemma ConvertChars(c: Config, f: Frame)
    ensures forall k :: 0 <= k < |Convert(c, f)| ==>
              Convert(c, f)[k] == '\n' || Convert(c, f)[k] in c.ramp || Convert(c, f)[k] == ' '
  {
    var allowed := (set ch | ch in c.ramp) + {' '};
    var cell := Glyphs(c, f, LayoutFor(c, f));
    forall y, x | 0 <= y < Rows(c, f) && 0 <= x < Columns(c, f)
      ensures cell(x, y) in allowed
    {
      assert cell(x, y) == Glyph(c, f, LayoutFor(c, f), x, y);
    }
    FrameTextWithin(cell, Columns(c, f), Rows(c, f), allowed);
  }

  /** A frame with no width converts to bare newlines, one per row; a frame with
      no height converts to the empty text. This is a fact about the conversion
      alone: the effect itself never converts such a frame. */
  lemma ZeroSizeFrame(c: Config, f: Frame)
    requires f.width == 0 || f.height == 0
    ensures f.width == 0 ==> |Convert(c, f)| == Rows(c, f)
    ensures f.width == 0 ==> forall k :: 0 <= k < |Convert(c, f)| ==> Convert(c, f)[k] == '\n'
    ensures f.height == 0 ==> Convert(c, f) == []
  {
    RoundUnique(0.0, 0);
    if f.width == 0 {
      assert Columns(c, f) == 0;
      ConvertLayout(c, f);
      forall k | 0 <= k < |Convert(c, f)|
        ensures Convert(c, f)[k] == '\n'
      {
        assert TextPos(0, k, 0) == k;
      }
    }
  }

  // ---------------------------------------------------------------------------
  // The blank prefill of a resize and the grid a conversion fills
  // ---------------------------------------------------------------------------

  /** With a positive resolution the prefill holds one blank per cell, and a
      converted frame of the same size holds those cells plus one newline per row. */
  lemma PrefillMatchesGrid(c: Config, f: Frame)
    requires c.resolution > 0.0
    ensures PrefillLength(c.resolution, f.width, f.height) == Columns(c, f) * Rows(c, f)
    ensures |Convert(c, f)| == PrefillLength(c.resolution, f.width, f.height) + Rows(c, f)
  {
    var l := LayoutOf(c.resolution, f.width, f.height);
    assert 0.0 <= c.resolution * f.width as real;
    assert 0.0 <= c.resolution * f.height as real / CharHeightRatio as real;
    RoundUnique(0.0, 0);
    RoundMonotone(0.0, c.resolution * f.width as real);
    RoundMonotone(0.0, c.resolution * f.height as real / CharHeightRatio as real);
    assert l.cellsX >= 0 && l.cellsY >= 0;
    ConvertLayout(c, f);
    assert Rows(c, f) * (Columns(c, f) + 1) == Columns(c, f) * Rows(c, f) + Rows(c, f);
  }

  // ---------------------------------------------------------------------------
  // Light values and ramp positions
  // ---------------------------------------------------------------------------

  lemma SampleLumaBounds(data: seq<Byte>, offset: int)
    ensures SampleLuma(data, offset).Num? ==> 0.0 <= SampleLuma(data, offset).value <= 255.0
  {
  }

  lemma {:induction false} RowRunBounds(acc: Number, data: seq<Byte>, width: nat, posX: int, posY: int, j: int, n: nat)
    ensures RowRun(acc, data, width, posX, posY, j, n).Num? ==>
              acc.Num? &&
              acc.value <= RowRun(acc, data, width, posX, posY, j, n).value <= acc.value + 255.0 * n as real
  {
    if n > 0 {
      RowRunBounds(acc, data, width, posX, posY, j, n - 1);
      SampleLumaBounds(data, SampleOffset(width, posX, posY, n - 1, j));
    }
  }

  lemma {:induction false} BlockRunBounds(data: seq<Byte>, width: nat, posX: int, posY: int, dX: nat, m: nat)
    ensures BlockRun(data, width, posX, posY, dX, m).Num? ==>
              0.0 <= BlockRun(data, width, posX, posY, dX, m).value <= 255.0 * (m * dX) as real
  {
    if m > 0 {
      var prev := BlockRun(data, width, posX, posY, dX, m - 1);
      BlockRunBounds(data, width, posX, posY, dX, m - 1);
      RowRunBounds(prev, data, width, posX, posY, m - 1, dX);
      assert (m * dX) as real == ((m - 1) * dX) as real + dX as real;
    }
  }

  /** A cell's average light, when it is a number, lies between black and white. */
  lemma CellAverageBounds(data: seq<Byte>, width: nat, posX: int, posY: int, dX: nat, dY: nat)
    ensures CellAverage(data, width, posX, posY, dX, dY).Num? ==>
              0.0 <= CellAverage(data, width, posX, posY, dX, dY).value <= 255.0
  {
    var sum := BlockRun(data, width, posX, posY, dX, dY);
    BlockRunBounds(data, width, posX, posY, dX, dY);
    if sum.Num? {
      if dY * dX > 0 {
        var n := (dY * dX) as real;
        assert sum.value <= 255.0 * n;
        assert sum.value / n <= 255.0;
      } else {
        assert (dY * dX) as real == 0.0;
      }
    }
  }

  /** For a light between black and white, the rounded ramp position is a valid
      index of a non-empty ramp, whichever way `invert` points. */
  lemma CharIndexInRamp(invert: bool, rampLength: int, l: real)
    requires rampLength >= 1
    requires 0.0 <= l <= 255.0
    ensures CharIndex(invert, rampLength, Num(l)).Some?
    ensures 0 <= CharIndex(invert, rampLength, Num(l)).value < rampLength
  {
    var v := if invert then l else 255.0 - l;
    var top := (rampLength - 1) as real;
    ScaleBounds(v, rampLength);
    RoundUnique(0.0, 0);
    RoundUnique(top, rampLength - 1);
    RoundMonotone(0.0, Scale(v, rampLength));
    RoundMonotone(Scale(v, rampLength), top);
  }

  /** A light between black and white scales onto `0 .. rampLength - 1`. */
  lemma ScaleBounds(v: real, rampLength: int)
    requires rampLength >= 1
    requires 0.0 <= v <= 255.0
    ensures 0.0 <= Scale(v, rampLength) <= (rampLength - 1) as real
  {
    var t := v / 255.0;
    var top := (rampLength - 1) as real;
    MulNonNegative(t, top);
    MulNonNegative(1.0 - t, top);
    assert (1.0 - t) * top == top - t * top;
  }

  lemma MulNonNegative(a: real, b: real)
    requires 0.0 <= a && 0.0 <= b
    ensures 0.0 <= a * b
  {
  }

  /** The blank fallback only fires for a NaN light (or an empty ramp): any cell
      whose light is a number shows the ramp character at its rounded position. */
  lemma GlyphFromRamp(c: Config, f: Frame, l: Layout, x: int, y: int)
    requires |c.ramp| >= 1
    requires CellLight(f, l, x, y).Num?
    ensures CharIndex(c.invert, |c.ramp|, CellLight(f, l, x, y)).Some?
    ensures 0 <= CharIndex(c.invert, |c.ramp|, CellLight(f, l, x, y)).value < |c.ramp|
    ensures Glyph(c, f, l, x, y) == c.ramp[CharIndex(c.invert, |c.ramp|, CellLight(f, l, x, y)).value]
  {
    CellAverageBounds(f.data, f.width, x * l.deltaX, y * l.deltaY, Iterations(l.deltaX), Iterations(l.deltaY));
    CharIndexInRamp(c.invert, |c.ramp|, CellLight(f, l, x, y).value);
  }

  /** Inverting mirrors the ramp position, `index_invert = n - 1 - index_normal`,
      except when the scaled light lies exactly halfway between two positions:
      `Math.round` then rounds both up and the two indices sum to `n`. */
  lemma InvertMirrorsIndex(rampLength: int, l: real)
    ensures CharIndex(true, rampLength, Num(l)).Some? && CharIndex(false, rampLength, Num(l)).Some?
    ensures !IsHalfway(Scale(l, rampLength)) <==>
              CharIndex(true, rampLength, Num(l)).value + CharIndex(false, rampLength, Num(l)).value == rampLength - 1
    ensures IsHalfway(Scale(l, rampLength)) <==>
              CharIndex(true, rampLength, Num(l)).value + CharIndex(false, rampLength, Num(l)).value == rampLength
  {
    assert Scale(255.0 - l, rampLength) == (rampLength - 1) as real - Scale(l, rampLength);
    RoundReflect(rampLength - 1, Scale(l, rampLength));
  }

  /** The halfway case occurs with the default ramp: a light of 127.5 (the
      average of a grey-127 and a grey-128 pixel) takes position 5 both ways. */
  lemma InvertMirrorHalfwayExample()
    ensures CharIndex(true, |DefaultRamp|, Num(127.5)) == Some(5)
    ensures CharIndex(false, |DefaultRamp|, Num(127.5)) == Some(5)
  {
    RoundUnique(4.5, 5);
  }

  // ---------------------------------------------------------------------------
  // Reads past the end of the buffer
  // ---------------------------------------------------------------------------

  lemma {:induction false} RowRunKeepsNaN(acc: Number, data: seq<Byte>, width: nat, posX: int, posY: int, j: int, n: nat)
    requires acc.NaN?
    ensures RowRun(acc, data, width, posX, posY, j, n).NaN?
  {
    if n > 0 {
      RowRunKeepsNaN(acc, data, width, posX, posY, j, n - 1);
    }
  }

  lemma {:induction false} RowRunHitsNaN(acc: Number, data: seq<Byte>, width: nat, posX: int, posY: int, j: int, n: nat, i: nat)
    requires i < n
    requires SampleLuma(data, SampleOffset(width, posX, posY, i, j)).NaN?
    ensures RowRun(acc, data, width, posX, posY, j, n).NaN?
  {
    if i < n - 1 {
      RowRunHitsNaN(acc, data, width, posX, posY, j, n - 1, i);
    }
  }

  lemma {:induction false} BlockRunHitsNaN(data: seq<Byte>, width: nat, posX: int, posY: int, dX: nat, m: nat, i: nat, j: nat)
    requires i < dX && j < m
    requires SampleLuma(data, SampleOffset(width, posX, posY, i, j)).NaN?
    ensures BlockRun(data, width, posX, posY, dX, m).NaN?
  {
    var prev := BlockRun(data, width, posX, posY, dX, m - 1);
    if j < m - 1 {
      BlockRunHitsNaN(data, width, posX, posY, dX, m - 1, i, j);
      RowRunKeepsNaN(prev, data, width, posX, posY, m - 1, dX);
    } else {
      RowRunHitsNaN(prev, data, width, posX, posY, j, dX, i);
    }
  }

  /** If any pixel a cell visits has a channel past the end of the buffer, the
      cell's light is NaN and it shows a blank, whatever the other pixels hold. */
  lemma PastEndIsBlank(c: Config, f: Frame, l: Layout, x: int, y: int, i: nat, j: nat)
    requires i < Iterations(l.deltaX) && j < Iterations(l.deltaY)
    requires SampleOffset(f.width, x * l.deltaX, y * l.deltaY, i, j) + 2 >= |f.data|
    ensures CellLight(f, l, x, y).NaN?
    ensures Glyph(c, f, l, x, y) == ' '
  {
    BlockRunHitsNaN(f.data, f.width, x * l.deltaX, y * l.deltaY, Iterations(l.deltaX), Iterations(l.deltaY), i, j);
  }

  /** A black 1 x 3 frame, alpha 255. */
  const BlackColumn: Frame := Frame(1, 3, [0, 0, 0, 255, 0, 0, 0, 255, 0, 0, 0, 255])

  /** At resolution 1 the 1 x 3 frame is cut into 1 x 2 cells of 1 x 2 pixels. */
  lemma BlackColumnLayout()
    ensures LayoutFor(Config(DefaultRamp, 1.0, false), BlackColumn) == Layout(1, 2, 1, 2)
  {
    RoundUnique(1.0, 1);
    RoundUnique(1.5, 2);
  }

  /** The top cell averages two black pixels. */
  lemma BlackColumnTopLight()
    ensures CellLight(BlackColumn, Layout(1, 2, 1, 2), 0, 0) == Num(0.0)
  {
    var data := BlackColumn.data;
    forall i, j | 0 <= i < 1 && 0 <= j < 2
      ensures SampleLuma(data, SampleOffset(1, 0, 0, i, j)) == Num(0.0)
    {
      assert SampleOffset(1, 0, 0, i, j) == 4 * j;
    }
    CellAverageConstant(0.0, data, 1, 0, 0, 1, 2);
  }

  /** The top cell is black and shows the densest character. */
  lemma BlackColumnTop()
    ensures Glyph(Config(DefaultRamp, 1.0, false), BlackColumn, Layout(1, 2, 1, 2), 0, 0) == '@'
  {
    BlackColumnTopLight();
    assert Scale(255.0 - 0.0, |DefaultRamp|) == 9.0;
    RoundUnique(9.0, 9);
  }

  /** The bottom cell reaches the missing fourth pixel row and shows a blank. */
  lemma BlackColumnBottom()
    ensures Glyph(Config(DefaultRamp, 1.0, false), BlackColumn, Layout(1, 2, 1, 2), 0, 1) == ' '
  {
    assert SampleOffset(1, 0, 2, 0, 1) == 12;
    PastEndIsBlank(Config(DefaultRamp, 1.0, false), BlackColumn, Layout(1, 2, 1, 2), 0, 1, 0, 1);
  }

  /** As written, the cell grid can reach below the frame: at resolution 1 a
      1 x 3 frame gets 2 rows of cells 2 pixels tall, so the bottom cell reads
      a fourth pixel row that the buffer does not have. An all-black frame then
      converts to a dense top row and a blank bottom row. */
  lemma BottomRowReadsPastEnd()
    ensures Convert(Config(DefaultRamp, 1.0, false), BlackColumn) == "@\n \n"
  {
    var c := Config(DefaultRamp, 1.0, false);
    var cell := Glyphs(c, BlackColumn, Layout(1, 2, 1, 2));
    BlackColumnLayout();
    BlackColumnTop();
    BlackColumnBottom();
    OneColumnTwoRows(cell);
  }

  /** A grid of one column and two rows reads its two cells, each on its own line. */
  lemma OneColumnTwoRows(cell: (int, int) -> char)
    ensures FrameText(cell, 1, 2) == [cell(0, 0), '\n', cell(0, 1), '\n']
  {
    assert RowText(cell, 0, 1) == [cell(0, 0)];
    assert RowText(cell, 1, 1) == [cell(0, 1)];
  }

  // ---------------------------------------------------------------------------
  // Uniform frames
  // ---------------------------------------------------------------------------

  /** Every pixel of the buffer has the colour `(r, g, b)`; alpha is arbitrary. */
  ghost predicate Uniform(data: seq<Byte>, r: Byte, g: Byte, b: Byte)
  {
    forall k :: 0 <= k < |data| ==>
      (k % 4 == 0 ==> data[k] == r) && (k % 4 == 1 ==> data[k] == g) && (k % 4 == 2 ==> data[k] == b)
  }

  function ColourLuma(r: Byte, g: Byte, b: Byte): real
  {
    0.299 * r as real + 0.587 * g as real + 0.114 * b as real
  }

  /** Flat index of the red channel of pixel `(i, j)` of cell `(x, y)`. */
  function CellOffset(f: Frame, l: Layout, x: int, y: int, i: int, j: int): int
  {
    SampleOffset(f.width, x * l.deltaX, y * l.deltaY, i, j)
  }

  /** Every channel the conversion reads lies inside the buffer. */
  ghost predicate SamplesInBuffer(c: Config, f: Frame)
  {
    var l := LayoutFor(c, f);
    forall x, y, i, j {:trigger CellOffset(f, l, x, y, i, j)} ::
      0 <= x < l.cellsX && 0 <= y < l.cellsY && 0 <= i < l.deltaX && 0 <= j < l.deltaY ==>
        0 <= CellOffset(f, l, x, y, i, j) && CellOffset(f, l, x, y, i, j) + 2 < |f.data|
  }

  /** Every pixel a cell visits lies inside the frame, and the buffer covers the frame. */
  ghost predicate SamplesInside(c: Config, f: Frame)
  {
    var l := LayoutFor(c, f);
    l.cellsX * l.deltaX <= f.width && l.cellsY * l.deltaY <= f.height &&
    |f.data| >= 4 * f.width * f.height
  }

  lemma MulMono(a: int, b: int, k: nat)
    requires a <= b
    ensures a * k <= b * k
  {
  }

  /** Pixel `(col, row)` of a `width x height` frame has a flat number below `width * height`. */
  lemma PixelInside(width: nat, height: nat, row: int, col: int)
    requires 0 <= row < height && 0 <= col < width
    ensures 0 <= row * width + col < width * height
  {
    MulMono(row, height - 1, width);
    assert (height - 1) * width + width == width * height;
  }

  /** In a uniform buffer every pixel inside it has the frame's luma. */
  lemma UniformSample(data: seq<Byte>, r: Byte, g: Byte, b: Byte, p: int)
    requires Uniform(data, r, g, b)
    requires 0 <= p && 4 * p + 3 <= |data|
    ensures SampleLuma(data, 4 * p) == Num(ColourLuma(r, g, b))
  {
    assert (4 * p) % 4 == 0 && (4 * p + 1) % 4 == 1 && (4 * p + 2) % 4 == 2;
  }

  /** A pixel of a uniform buffer whose channels are inside it has the frame's luma. */
  lemma UniformCellSample(data: seq<Byte>, width: nat, posX: int, posY: int, i: int, j: int, r: Byte, g: Byte, b: Byte)
    requires Uniform(data, r, g, b)
    requires 0 <= SampleOffset(width, posX, posY, i, j) && SampleOffset(width, posX, posY, i, j) + 2 < |data|
    ensures SampleLuma(data, SampleOffset(width, posX, posY, i, j)) == Num(ColourLuma(r, g, b))
  {
    var p := (posY + j) * width + (posX + i);
    assert SampleOffset(width, posX, posY, i, j) == 4 * p;
    UniformSample(data, r, g, b, p);
  }

  /** `n * L` as repeated addition, so that the sums below stay linear. */
  function Times(n: nat, L: real): real
  {
    if n == 0 then 0.0 else Times(n - 1, L) + L
  }

  lemma {:induction false} TimesAdd(p: nat, q: nat, L: real)
    ensures Times(p + q, L) == Times(p, L) + Times(q, L)
    decreases q
  {
    if q > 0 {
      TimesAdd(p, q - 1, L);
    }
  }

  lemma {:induction false} TimesIsProduct(n: nat, L: real)
    ensures Times(n, L) == n as real * L
  {
    if n > 0 {
      TimesIsProduct(n - 1, L);
      assert (n - 1) as real * L + L == n as real * L;
    }
  }

  /** Dividing `n` copies of `L` by `n` gives back `L`. */
  lemma TimesAverage(n: nat, L: real)
    requires n > 0
    ensures Times(n, L) / n as real == L
  {
    TimesIsProduct(n, L);
  }

  /** If every pixel of a row of `n` has luma `L`, the row adds `n * L`. */
  lemma {:induction false} RowRunConstant(a: real, L: real, data: seq<Byte>, width: nat, posX: int, posY: int, j: int, n: nat)
    requires forall i :: 0 <= i < n ==> SampleLuma(data, SampleOffset(width, posX, posY, i, j)) == Num(L)
    ensures RowRun(Num(a), data, width, posX, posY, j, n) == Num(a + Times(n, L))
  {
    if n > 0 {
      RowRunConstant(a, L, data, width, posX, posY, j, n - 1);
    }
  }

  /** If every pixel of `m` rows of `dX` has luma `L`, the block totals `m * dX * L`. */
  lemma {:induction false} BlockRunConstant(L: real, data: seq<Byte>, width: nat, posX: int, posY: int, dX: nat, m: nat)
    requires forall i, j :: 0 <= i < dX && 0 <= j < m ==> SampleLuma(data, SampleOffset(width, posX, posY, i, j)) == Num(L)
    ensures BlockRun(data, width, posX, posY, dX, m) == Num(Times(m * dX, L))
  {
    if m > 0 {
      BlockRunConstant(L, data, width, posX, posY, dX, m - 1);
      RowRunConstant(Times((m - 1) * dX, L), L, data, width, posX, posY, m - 1, dX);
      assert m * dX == (m - 1) * dX + dX;
      TimesAdd((m - 1) * dX, dX, L);
    }
  }

  /** The average of a block whose pixels all have luma `L`: `L`, or 0 for an empty block. */
  lemma CellAverageConstant(L: real, data: seq<Byte>, width: nat, posX: int, posY: int, dX: nat, dY: nat)
    requires forall i, j :: 0 <= i < dX && 0 <= j < dY ==> SampleLuma(data, SampleOffset(width, posX, posY, i, j)) == Num(L)
    ensures CellAverage(data, width, posX, posY, dX, dY) == Num(if dY * dX > 0 then L else 0.0)
  {
    BlockRunConstant(L, data, width, posX, posY, dX, dY);
    if dY * dX > 0 {
      TimesAverage(dY * dX, L);
    }
  }

  /** The light of a cell of a uniform frame, when every pixel it visits is inside. */
  function UniformLight(c: Config, f: Frame, r: Byte, g: Byte, b: Byte): real
  {
    if SampleCount(LayoutFor(c, f)) > 0 then ColourLuma(r, g, b) else 0.0
  }

  lemma DeltaNonNegative(extent: nat, cells: int)
    requires cells >= 1
    ensures Delta(extent, cells) >= 0
  {
    RoundUnique(0.0, 0);
    RoundMonotone(0.0, extent as real / cells as real);
  }

  /** Cell `(x, y)` of a frame whose cells stay inside it visits only pixels inside it. */
  lemma CellInside(cells: int, delta: int, extent: nat, x: int)
    requires 0 <= x < cells && 0 <= delta && cells * delta <= extent
    ensures 0 <= x * delta && x * delta + delta <= extent
  {
    MulMono(x + 1, cells, delta);
  }

  /** In a uniform frame whose sampled channels are all inside the buffer, every
      cell averages exactly the frame's luma, and so every cell shows the same character. */
  lemma UniformFrameGlyph(c: Config, f: Frame, r: Byte, g: Byte, b: Byte, x: int, y: int)
    requires Uniform(f.data, r, g, b)
    requires SamplesInBuffer(c, f)
    requires 0 <= x < LayoutFor(c, f).cellsX
    requires 0 <= y < LayoutFor(c, f).cellsY
    ensures CellLight(f, LayoutFor(c, f), x, y) == Num(UniformLight(c, f, r, g, b))
    ensures Glyph(c, f, LayoutFor(c, f), x, y) == Lookup(c.ramp, CharIndex(c.invert, |c.ramp|, Num(UniformLight(c, f, r, g, b))))
  {
    var l := LayoutFor(c, f);
    var dX, dY := Iterations(l.deltaX), Iterations(l.deltaY);
    forall i, j | 0 <= i < dX && 0 <= j < dY
      ensures SampleLuma(f.data, SampleOffset(f.width, x * l.deltaX, y * l.deltaY, i, j)) == Num(ColourLuma(r, g, b))
    {
      assert CellOffset(f, l, x, y, i, j) == SampleOffset(f.width, x * l.deltaX, y * l.deltaY, i, j);
      UniformCellSample(f.data, f.width, x * l.deltaX, y * l.deltaY, i, j, r, g, b);
    }
    CellAverageConstant(ColourLuma(r, g, b), f.data, f.width, x * l.deltaX, y * l.deltaY, dX, dY);
  }

  /** Cells that stay inside a frame the buffer covers read only channels inside the buffer. */
  lemma SamplesInsideInBuffer(c: Config, f: Frame)
    requires SamplesInside(c, f)
    ensures SamplesInBuffer(c, f)
  {
    var l := LayoutFor(c, f);
    forall x, y, i, j | 0 <= x < l.cellsX && 0 <= y < l.cellsY && 0 <= i < l.deltaX && 0 <= j < l.deltaY
      ensures 0 <= CellOffset(f, l, x, y, i, j) && CellOffset(f, l, x, y, i, j) + 2 < |f.data|
    {
      DeltaNonNegative(f.width, l.cellsX);
      DeltaNonNegative(f.height, l.cellsY);
      CellInside(l.cellsX, l.deltaX, f.width, x);
      CellInside(l.cellsY, l.deltaY, f.height, y);
      OffsetInside(f.width, f.height, x * l.deltaX, y * l.deltaY, i, j);
    }
  }

  /** Pixel `(posX + i, posY + j)` inside the frame has all its channels below `4 * width * height`. */
  lemma OffsetInside(width: nat, height: nat, posX: int, posY: int, i: int, j: int)
    requires 0 <= posX + i < width && 0 <= posY + j < height
    ensures 0 <= SampleOffset(width, posX, posY, i, j) && SampleOffset(width, posX, posY, i, j) + 3 < 4 * width * height
  {
    PixelInside(width, height, posY + j, posX + i);
  }

  /** A uniform frame whose sampled channels are all inside the buffer converts to a block of
      one repeated character, the ramp character for the frame's luma, broken
      only by the row newlines. */
  lemma UniformFrameText(c: Config, f: Frame, r: Byte, g: Byte, b: Byte)
    requires Uniform(f.data, r, g, b)
    requires SamplesInBuffer(c, f)
    ensures forall k :: 0 <= k < |Convert(c, f)| ==>
              Convert(c, f)[k] in {'\n', Lookup(c.ramp, CharIndex(c.invert, |c.ramp|, Num(UniformLight(c, f, r, g, b))))}
  {
    var ch := Lookup(c.ramp, CharIndex(c.invert, |c.ramp|, Num(UniformLight(c, f, r, g, b))));
    var cell := Glyphs(c, f, LayoutFor(c, f));
    forall y, x | 0 <= y < Rows(c, f) && 0 <= x < Columns(c, f)
      ensures cell(x, y) in {ch}
    {
      UniformFrameGlyph(c, f, r, g, b, x, y);
    }
    FrameTextWithin(cell, Columns(c, f), Rows(c, f), {ch});
  }

  /** White (luma 255) and black (luma 0) land on the two ends of the ramp:
      white on the first character and black on the last, or the other way
      round when `invert` is set. */
  lemma RampEnds(invert: bool, ramp: string)
    requires |ramp| >= 1
    ensures Lookup(ramp, CharIndex(invert, |ramp|, Num(255.0))) == if invert then ramp[|ramp| - 1] else ramp[0]
    ensures Lookup(ramp, CharIndex(invert, |ramp|, Num(0.0))) == if invert then ramp[0] else ramp[|ramp| - 1]
  {
    RoundUnique(0.0, 0);
    RoundUnique((|ramp| - 1) as real, |ramp| - 1);
  }

  /** End to end: a fully white frame converts to the ramp's first character in
      every cell and a fully black one to its last (swapped under `invert`),
      provided every cell visits at least one pixel and reads only inside the buffer. */
  lemma WhiteAndBlackFrames(c: Config, f: Frame, v: Byte, x: int, y: int)
    requires v == 0 || v == 255
    requires |c.ramp| >= 1
    requires Uniform(f.data, v, v, v)
    requires SamplesInBuffer(c, f)
    requires SampleCount(LayoutFor(c, f)) > 0
    requires 0 <= x < LayoutFor(c, f).cellsX
    requires 0 <= y < LayoutFor(c, f).cellsY
    ensures v == 255 ==> Glyph(c, f, LayoutFor(c, f), x, y) == if c.invert then c.ramp[|c.ramp| - 1] else c.ramp[0]
    ensures v == 0 ==> Glyph(c, f, LayoutFor(c, f), x, y) == if c.invert then c.ramp[0] else c.ramp[|c.ramp| - 1]
  {
    UniformFrameGlyph(c, f, v, v, v, x, y);
    RampEnds(c.invert, c.ramp);
  }

  // ---------------------------------------------------------------------------
  // The alpha channel
  // ---------------------------------------------------------------------------

  /** Two buffers of the same length that agree on every red, green and blue byte. */
  ghost predicate SameColours(d1: seq<Byte>, d2: seq<Byte>)
  {
    |d1| == |d2| && forall k :: 0 <= k < |d1| && k % 4 != 3 ==> d1[k] == d2[k]
  }

  lemma SampleLumaIgnoresAlpha(d1: seq<Byte>, d2: seq<Byte>, width: nat, posX: int, posY: int, i: int, j: int)
    requires SameColours(d1, d2)
    ensures SampleLuma(d1, SampleOffset(width, posX, posY, i, j)) == SampleLuma(d2, SampleOffset(width, posX, posY, i, j))
  {
    var o := SampleOffset(width, posX, posY, i, j);
    assert o % 4 == 0 && (o + 1) % 4 == 1 && (o + 2) % 4 == 2;
  }

  lemma {:induction false} RowRunIgnoresAlpha(acc: Number, d1: seq<Byte>, d2: seq<Byte>, width: nat, posX: int, posY: int, j: int, n: nat)
    requires SameColours(d1, d2)
    ensures RowRun(acc, d1, width, posX, posY, j, n) == RowRun(acc, d2, width, posX, posY, j, n)
  {
    if n > 0 {
      RowRunIgnoresAlpha(acc, d1, d2, width, posX, posY, j, n - 1);
      SampleLumaIgnoresAlpha(d1, d2, width, posX, posY, n - 1, j);
    }
  }

  lemma {:induction false} BlockRunIgnoresAlpha(d1: seq<Byte>, d2: seq<Byte>, width: nat, posX: int, posY: int, dX: nat, m: nat)
    requires SameColours(d1, d2)
    ensures BlockRun(d1, width, posX, posY, dX, m) == BlockRun(d2, width, posX, posY, dX, m)
  {
    if m > 0 {
      BlockRunIgnoresAlpha(d1, d2, width, posX, posY, dX, m - 1);
      RowRunIgnoresAlpha(BlockRun(d1, width, posX, posY, dX, m - 1), d1, d2, width, posX, posY, m - 1, dX);
    }
  }

  /** Grids that agree on their first `n` cells of row `y` give the same row text. */
  lemma {:induction false} RowTextSameCells(cell1: (int, int) -> char, cell2: (int, int) -> char, y: int, n: nat)
    requires forall x :: 0 <= x < n ==> cell1(x, y) == cell2(x, y)
    ensures RowText(cell1, y, n) == RowText(cell2, y, n)
  {
    if n > 0 {
      RowTextSameCells(cell1, cell2, y, n - 1);
    }
  }

  /** Grids that agree on every cell of the first `m` rows give the same text. */
  lemma {:induction false} FrameTextSameCells(cell1: (int, int) -> char, cell2: (int, int) -> char, columns: nat, m: nat)
    requires forall y, x :: 0 <= y < m && 0 <= x < columns ==> cell1(x, y) == cell2(x, y)
    ensures FrameText(cell1, columns, m) == FrameText(cell2, columns, m)
  {
    if m > 0 {
      FrameTextSameCells(cell1, cell2, columns, m - 1);
      RowTextSameCells(cell1, cell2, m - 1, columns);
    }
  }

  /** The alpha byte of a pixel is never read: two frames of the same size whose
      buffers differ only in alpha bytes convert to the same text. */
  lemma AlphaIgnored(c: Config, f1: Frame, f2: Frame)
    requires f1.width == f2.width && f1.height == f2.height
    requires SameColours(f1.data, f2.data)
    ensures Convert(c, f1) == Convert(c, f2)
  {
    var l := LayoutFor(c, f1);
    var cell1 := Glyphs(c, f1, l);
    var cell2 := Glyphs(c, f2, l);
    forall y, x | 0 <= y < Rows(c, f1) && 0 <= x < Columns(c, f1)
      ensures cell1(x, y) == cell2(x, y)
    {
      BlockRunIgnoresAlpha(f1.data, f2.data, f1.width, x * l.deltaX, y * l.deltaY, Iterations(l.deltaX), Iterations(l.deltaY));
      assert CellLight(f1, l, x, y) == CellLight(f2, l, x, y);
    }
    FrameTextSameCells(cell1, cell2, Columns(c, f1), Rows(c, f1));
    assert LayoutFor(c, f2) == l;
  }

  // ---------------------------------------------------------------------------
  // Options
  // ---------------------------------------------------------------------------

  /** `scale`, `color`, `alpha` and `block` do not reach the conversion: options
      that agree on `resolution` and `invert` give the same configuration, and so
      the same text for every frame. */
  lemma ExtrasDoNotAffectOutput(v: Variant, charSet: Option<string>, o1: Options, o2: Options, f: Frame)
    requires o1.resolution == o2.resolution && o1.invert == o2.invert
    ensures Resolve(v, charSet, o1) == Resolve(v, charSet, o2)
    ensures Convert(Resolve(v, charSet, o1), f) == Convert(Resolve(v, charSet, o2), f)
  {
  }
}
