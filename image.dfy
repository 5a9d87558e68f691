/**
 The image written for `--output` (entombed.py:458-476): every saved row
 becomes a pixel row, each cell widened to `output_scale` pixels and the
 reversed row appended, and every pixel row is repeated `output_scale` times.
 */
module ImageExpansion {
  import opened Rules
  import MazeDriver
  import RowGenerator
  import opened Arith

  /** An RGB colour as the program builds it: a triple of integers. */
  datatype Pixel = Pixel(r: int, g: int, b: int)

  /** The colour triple of a 0xRRGGBB integer, by masks and shifts. */
  function HexToPixel(c: int): (p: Pixel)
    ensures 0 <= p.r < 0x100 && 0 <= p.g < 0x100 && 0 <= p.b < 0x100
    ensures p.r * 0x10000 + p.g * 0x100 + p.b == c % 0x100_0000
  {
    ByteSplit(c);
    Pixel((c / 0x10000) % 0x100, (c / 0x100) % 0x100, c % 0x100)
  }

  /** The low three bytes of `c`, high to low, recombine to `c` modulo 2^24. */
  lemma ByteSplit(c: int)
    ensures ((c / 0x10000) % 0x100) * 0x10000 + ((c / 0x100) % 0x100) * 0x100 + c % 0x100 == c % 0x100_0000
  {
    var q0 := c / 0x100;
    var q1 := q0 / 0x100;
    var q2 := q1 / 0x100;
    var b, g, r := c % 0x100, q0 % 0x100, q1 % 0x100;
    DivBetween(c, q1, 0x10000);
    DivBetween(c, q2, 0x100_0000);
  }

  /** A wall cell is drawn in the foreground colour, an open one in the background colour. */
  function Colour(cell: Bit, fg: Pixel, bg: Pixel): Pixel {
    if cell != 0 then fg else bg
  }

  /** `n` copies of `x`, as appended by a `for i in range(n)` loop. */
  function Repeat<T>(x: T, n: nat): (xs: seq<T>)
    ensures |xs| == n && forall i :: 0 <= i < n ==> xs[i] == x
  {
    if n == 0 then [] else Repeat(x, n - 1) + [x]
  }

  /** Every element of `xs` repeated `scale` times in place. */
  function Stretch<T>(xs: seq<T>, scale: nat): seq<T> {
    if |xs| == 0 then [] else Stretch(xs[..|xs| - 1], scale) + Repeat(xs[|xs| - 1], scale)
  }

  /** The colour of each cell of `row`. */
  function Colours(row: seq<Bit>, fg: Pixel, bg: Pixel): (ps: seq<Pixel>)
    ensures |ps| == |row| && forall i :: 0 <= i < |row| ==> ps[i] == Colour(row[i], fg, bg)
  {
    if |row| == 0 then [] else Colours(row[..|row| - 1], fg, bg) + [Colour(row[|row| - 1], fg, bg)]
  }

  /** `row[::-1]`. */
  function Reversed(row: seq<Bit>): (rev: seq<Bit>)
    ensures |rev| == |row| && forall i :: 0 <= i < |row| ==> rev[i] == row[|row| - 1 - i]
  {
    if |row| == 0 then [] else [row[|row| - 1]] + Reversed(row[..|row| - 1])
  }

  /** The pixel row of one maze row: its cells widened, then the same for the reversed row. */
  function PixelRow(row: seq<Bit>, scale: nat, fg: Pixel, bg: Pixel): seq<Pixel> {
    Stretch(Colours(row, fg, bg), scale) + Stretch(Colours(Reversed(row), fg, bg), scale)
  }

  /** The pixel row of each saved row. */
  function PixelRows(saved: seq<seq<Bit>>, scale: nat, fg: Pixel, bg: Pixel): (rows: seq<seq<Pixel>>)
    ensures |rows| == |saved| && forall k :: 0 <= k < |saved| ==> rows[k] == PixelRow(saved[k], scale, fg, bg)
  {
    if |saved| == 0 then [] else PixelRows(saved[..|saved| - 1], scale, fg, bg) + [PixelRow(saved[|saved| - 1], scale, fg, bg)]
  }

  /** The whole image: each saved row's pixel row, `scale` times over. */
  function Image(saved: seq<seq<Bit>>, scale: nat, fg: Pixel, bg: Pixel): seq<seq<Pixel>> {
    Stretch(PixelRows(saved, scale, fg, bg), scale)
  }

  /** The loops that build `output_maze` from the saved rows. */
  method ExpandMaze(saved: seq<seq<Bit>>, scale: int, outputFg: int, outputBg: int)
    returns (outputMaze: seq<seq<Pixel>>)
    ensures outputMaze == Image(saved, MazeDriver.Count(scale), HexToPixel(outputFg), HexToPixel(outputBg))
  {
    var fg := HexToPixel(outputFg);
    var bg := HexToPixel(outputBg);
    var n := MazeDriver.Count(scale);
    outputMaze := [];
    for k := 0 to |saved|
      invariant outputMaze == Stretch(PixelRows(saved[..k], n, fg, bg), n)
    {
      var r := ExpandRow(saved[k], n, fg, bg);
      outputMaze := AppendCopies(outputMaze, r, n);
      PixelRowsSnoc(saved, k, n, fg, bg);
      StretchSnoc(PixelRows(saved[..k], n, fg, bg), r, n);
    }
    assert saved[..|saved|] == saved;
  }

  /** One pixel row: the cells of `row`, then those of `row[::-1]`. */
  method ExpandRow(row: seq<Bit>, scale: nat, fg: Pixel, bg: Pixel) returns (r: seq<Pixel>)
    ensures r == PixelRow(row, scale, fg, bg)
  {
    r := ExpandCells(row, [], scale, fg, bg);
    assert r == Stretch(Colours(row, fg, bg), scale);
    r := ExpandCells(Reversed(row), r, scale, fg, bg);
  }

  /** Appends each cell of `row` to `r`, `scale` pixels per cell. */
  method ExpandCells(row: seq<Bit>, r: seq<Pixel>, scale: nat, fg: Pixel, bg: Pixel) returns (r': seq<Pixel>)
    ensures r' == r + Stretch(Colours(row, fg, bg), scale)
  {
    r' := r;
    for j := 0 to |row|
      invariant r' == r + Stretch(Colours(row[..j], fg, bg), scale)
    {
      var colour := if row[j] != 0 then fg else bg;
      ghost var done := Stretch(Colours(row[..j], fg, bg), scale);
      r' := AppendCopies(r', colour, scale);
      assert r' == r + (done + Repeat(colour, scale));
      ColoursSnoc(row, j, fg, bg);
      StretchSnoc(Colours(row[..j], fg, bg), colour, scale);
    }
    assert row[..|row|] == row;
  }

  /** A `for i in range(n)` loop appending `x` each time. */
  method AppendCopies<T>(xs: seq<T>, x: T, n: nat) returns (ys: seq<T>)
    ensures ys == xs + Repeat(x, n)
  {
    ys := xs;
    for i := 0 to n
      invariant ys == xs + Repeat(x, i)
    {
      ys := ys + [x];
    }
  }

  lemma ColoursSnoc(row: seq<Bit>, j: nat, fg: Pixel, bg: Pixel)
    requires j < |row|
    ensures Colours(row[..j + 1], fg, bg) == Colours(row[..j], fg, bg) + [Colour(row[j], fg, bg)]
  {
    assert row[..j + 1][..j] == row[..j];
  }

  lemma PixelRowsSnoc(saved: seq<seq<Bit>>, k: nat, scale: nat, fg: Pixel, bg: Pixel)
    requires k < |saved|
    ensures PixelRows(saved[..k + 1], scale, fg, bg) == PixelRows(saved[..k], scale, fg, bg) + [PixelRow(saved[k], scale, fg, bg)]
  {
    assert saved[..k + 1][..k] == saved[..k];
  }

  /** Stretching one more element appends its copies. */
  lemma StretchSnoc<T>(xs: seq<T>, x: T, scale: nat)
    ensures Stretch(xs + [x], scale) == Stretch(xs, scale) + Repeat(x, scale)
  {
    assert (xs + [x])[..|xs|] == xs;
  }

  // ---------------------------------------------------------------------
  // Colours.

  /**
   For a colour in 0..0xFFFFFF the triple holds its three bytes, high to
   low: what the masks 0xff0000, 0xff00, 0xff and shifts by 16 and 8 pick.
   */
  lemma HexToPixelBytes(c: int)
    requires 0 <= c < 0x100_0000
    ensures var p := HexToPixel(c);
      && 0 <= p.r < 0x100 && 0 <= p.g < 0x100 && 0 <= p.b < 0x100
      && p.r * 0x10000 + p.g * 0x100 + p.b == c
  {
  }

  // ---------------------------------------------------------------------
  // Arithmetic on pixel positions.

  /** The cell under the mirrored position of pixel `j` is the mirrored cell. */
  lemma MirrorIndex(n: int, s: int, j: int, k: int)
    requires s > 0 && 0 <= j < n * s && k == 2 * (n * s) - 1 - j
    ensures (k - n * s) / s == n - 1 - j / s
  {
    var q := j / s;
    var m := j % s;
    assert j == q * s + m && 0 <= m < s;
    Distribute(n, 1 + q, s);
    Distribute(1 + q, 1, s);
    DivBetween(n * s - 1 - j, n - 1 - q, s);
  }

  // ---------------------------------------------------------------------
  // Stretching.

  lemma {:induction false} StretchLength<T>(xs: seq<T>, scale: nat)
    ensures |Stretch(xs, scale)| == |xs| * scale
    decreases |xs|
  {
    if |xs| > 0 {
      StretchLength(xs[..|xs| - 1], scale);
      Distribute(|xs|, 1, scale);
    }
  }

  /** Position `j` of a stretched sequence holds element `j / scale`. */
  lemma {:induction false} StretchAt<T>(xs: seq<T>, scale: nat, j: nat)
    requires scale > 0 && j < |xs| * scale
    ensures 0 <= j / scale < |xs| && j < |Stretch(xs, scale)| && Stretch(xs, scale)[j] == xs[j / scale]
    decreases |xs|
  {
    var n := |xs|;
    var p := xs[..n - 1];
    StretchLength(xs, scale);
    StretchLength(p, scale);
    Distribute(n, 1, scale);
    var q := j / scale;
    assert Stretch(xs, scale) == Stretch(p, scale) + Repeat(xs[n - 1], scale);
    if j < (n - 1) * scale {
      StretchAt(p, scale, j);
      assert 0 <= q < n - 1 && xs[q] == p[q];
      assert Stretch(xs, scale)[j] == Stretch(p, scale)[j];
    } else {
      DivBetween(j, n - 1, scale);
      assert q == n - 1;
      assert Stretch(xs, scale)[j] == Repeat(xs[n - 1], scale)[j - (n - 1) * scale];
    }
  }

  // ---------------------------------------------------------------------
  // Pixel rows.

  /** A row of `n` cells gives `2 * (n * scale)` pixels. */
  lemma PixelRowLength(row: seq<Bit>, scale: nat, fg: Pixel, bg: Pixel)
    ensures |PixelRow(row, scale, fg, bg)| == 2 * (|row| * scale)
  {
    StretchLength(Colours(row, fg, bg), scale);
    StretchLength(Colours(Reversed(row), fg, bg), scale);
  }

  /** In the first half, pixel `j` has the colour of cell `j / scale`. */
  lemma PixelRowLeft(row: seq<Bit>, scale: nat, fg: Pixel, bg: Pixel, j: nat)
    requires scale > 0 && j < |row| * scale
    ensures var pixels := PixelRow(row, scale, fg, bg);
      0 <= j / scale < |row| && j < |pixels| && pixels[j] == Colour(row[j / scale], fg, bg)
  {
    PixelRowLength(row, scale, fg, bg);
    StretchAt(Colours(row, fg, bg), scale, j);
  }

  /**
   In the second half, pixel `j` has the colour of cell `j / scale` of the
   reversed row, counted from the start of that half.
   */
  lemma PixelRowRight(row: seq<Bit>, scale: nat, fg: Pixel, bg: Pixel, j: nat)
    requires scale > 0 && |row| * scale <= j < 2 * (|row| * scale)
    ensures var pixels := PixelRow(row, scale, fg, bg);
      var t := (j - |row| * scale) / scale;
      0 <= t < |row| && j < |pixels| && pixels[j] == Colour(row[|row| - 1 - t], fg, bg)
  {
    var n := |row|;
    var left := Stretch(Colours(row, fg, bg), scale);
    var right := Stretch(Colours(Reversed(row), fg, bg), scale);
    var m := j - n * scale;
    var t := m / scale;
    PixelRowLength(row, scale, fg, bg);
    StretchLength(Colours(row, fg, bg), scale);
    StretchAt(Colours(Reversed(row), fg, bg), scale, m);
    assert PixelRow(row, scale, fg, bg)[j] == right[m];
    assert right[m] == Colours(Reversed(row), fg, bg)[t];
  }

  lemma PixelRowMirrorLeft(row: seq<Bit>, scale: nat, fg: Pixel, bg: Pixel, j: nat)
    requires scale > 0 && j < |row| * scale
    ensures var pixels := PixelRow(row, scale, fg, bg);
      |pixels| == 2 * (|row| * scale) && pixels[j] == pixels[2 * (|row| * scale) - 1 - j]
  {
    var k := 2 * (|row| * scale) - 1 - j;
    PixelRowLength(row, scale, fg, bg);
    PixelRowLeft(row, scale, fg, bg, j);
    PixelRowRight(row, scale, fg, bg, k);
    MirrorIndex(|row|, scale, j, k);
  }

  /** The pixel row reads the same from either end: the image is mirrored. */
  lemma PixelRowMirror(row: seq<Bit>, scale: nat, fg: Pixel, bg: Pixel, j: nat)
    requires j < 2 * (|row| * scale)
    ensures var pixels := PixelRow(row, scale, fg, bg);
      |pixels| == 2 * (|row| * scale) && pixels[j] == pixels[2 * (|row| * scale) - 1 - j]
  {
    var n := |row|;
    if j < n * scale {
      PixelRowMirrorLeft(row, scale, fg, bg, j);
    } else {
      PixelRowMirrorLeft(row, scale, fg, bg, 2 * (n * scale) - 1 - j);
    }
  }

  // ---------------------------------------------------------------------
  // The image.

  /** The image has `scale` pixel rows per saved row. */
  lemma ImageLength(saved: seq<seq<Bit>>, scale: nat, fg: Pixel, bg: Pixel)
    ensures |Image(saved, scale, fg, bg)| == |saved| * scale
  {
    StretchLength(PixelRows(saved, scale, fg, bg), scale);
  }

  /** Pixel row `k` of the image is the pixel row of saved row `k / scale`. */
  lemma ImageAt(saved: seq<seq<Bit>>, scale: nat, fg: Pixel, bg: Pixel, k: nat)
    requires scale > 0 && k < |saved| * scale
    ensures var image := Image(saved, scale, fg, bg);
      0 <= k / scale < |saved| && k < |image| && image[k] == PixelRow(saved[k / scale], scale, fg, bg)
  {
    var rows := PixelRows(saved, scale, fg, bg);
    StretchAt(rows, scale, k);
    var q := k / scale;
    assert rows[q] == PixelRow(saved[q], scale, fg, bg);
  }

  /**
   The image of a saved maze: `(rows + 1) * scale` pixel rows, each
   `2 * columns * scale` pixels wide.
   */
  lemma MazeImageShape(lut: Table, columns: int, rows: int, src: RowGenerator.BitSource, start: nat,
                       scale: nat, fg: Pixel, bg: Pixel)
    requires ValidValues(lut) && MazeDriver.RunMaze(lut, columns, rows, true, src, start).Ok?
    ensures var saved := MazeDriver.RunMaze(lut, columns, rows, true, src, start).value.saved;
      var image := Image(saved, scale, fg, bg);
      && |image| == (MazeDriver.Count(rows) + 1) * scale
      && forall k :: 0 <= k < |image| ==> |image[k]| == 2 * (MazeDriver.Count(columns) * scale)
  {
    var saved := MazeDriver.RunMaze(lut, columns, rows, true, src, start).value.saved;
    MazeDriver.MazeShape(lut, columns, rows, true, src, start);
    ImageLength(saved, scale, fg, bg);
    var image := Image(saved, scale, fg, bg);
    if scale > 0 {
      forall k | 0 <= k < |image|
        ensures |image[k]| == 2 * (MazeDriver.Count(columns) * scale)
      {
        ImageAt(saved, scale, fg, bg, k);
        PixelRowLength(saved[k / scale], scale, fg, bg);
      }
    }
  }
}
