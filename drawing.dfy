/**
 * The drawing routine of `draw`: quantise the sampled pixels of the resized image to the
 * palette in place, then walk the sampled rows and turn each one into mouse events that
 * select a colour and paint runs of equal colour with one held-down stroke.
 */
module Drawing {
  import opened Wrappers
  import opened Geometry
  import opened Palette

  /** A mouse action: move the cursor, press or release the left button, or click it. */
  datatype Event = Move(to: Point) | Press | Release | Click

  /** Events emitted so far, and whether the out-of-bounds test cancelled the draw. */
  datatype Path = Path(events: seq<Event>, aborted: bool)

  /** How far past the canvas' right and bottom edges a destination may lie. */
  const Tolerance := 5

  /** The cancel test of the drawing loop; there is no test against the left or top edge. */
  predicate OutOfBounds(p: Point, canvas: Rect)
  {
    p.x > canvas.x2 + Tolerance || p.y > canvas.y2 + Tolerance
  }

  /** Screen position of image pixel (x, y): the image is drawn from the canvas' top-left corner. */
  function Dest(canvas: Rect, x: int, y: int): Point
  {
    Point(x + canvas.x1, y + canvas.y1)
  }

  /** (x, y) is visited by `range(0, size, stride)` in both directions. */
  predicate Sampled(x: int, y: int, stride: Stride)
  {
    OnGrid(x, stride) && OnGrid(y, stride)
  }

  /** Row y of the pixel array, pixel x at index x. */
  ghost function RowOf(a: array2<Rgb>, y: nat): seq<Rgb>
    reads a
    requires y < a.Length1
  {
    seq(a.Length0, x requires 0 <= x < a.Length0 reads a => a[x, y])
  }

  /** The pixel array as a sequence of rows: `ImageOf(a)[y][x] == a[x, y]`. */
  ghost function ImageOf(a: array2<Rgb>): seq<seq<Rgb>>
    reads a
  {
    seq(a.Length1, y requires 0 <= y < a.Length1 reads a => RowOf(a, y))
  }

  /** Every sampled pixel of the row holds a palette colour. */
  ghost predicate RowQuantised(row: seq<Rgb>, palette: seq<Entry>, stride: Stride)
  {
    forall x :: 0 <= x < |row| && OnGrid(x, stride) ==> Has(palette, row[x])
  }

  /** Every sampled pixel holds a palette colour, so every colour lookup of the drawing loop succeeds. */
  ghost predicate Quantised(img: seq<seq<Rgb>>, palette: seq<Entry>, stride: Stride)
  {
    forall y :: 0 <= y < |img| && OnGrid(y, stride) ==> RowQuantised(img[y], palette, stride)
  }

  /** Every row has a first pixel, which the drawing loop reads to select its colour. */
  ghost predicate NonEmptyRows(img: seq<seq<Rgb>>)
  {
    forall y :: 0 <= y < |img| ==> |img[y]| > 0
  }

  /**
   * Replace every sampled pixel by its nearest palette colour, column by column as the
   * nested loops do; pixels off the stride grid keep their colour. The palette is read
   * only for a sampled pixel, and pixel (0, 0) is sampled whenever the image has one.
   */
  method Quantise(pixels: array2<Rgb>, palette: seq<Entry>, stride: Stride)
    requires |palette| > 0 || pixels.Length0 == 0 || pixels.Length1 == 0
    modifies pixels
    ensures forall x, y :: 0 <= x < pixels.Length0 && 0 <= y < pixels.Length1 ==>
      pixels[x, y] == if Sampled(x, y, stride) then Nearest(palette, old(pixels[x, y])) else old(pixels[x, y])
    ensures Quantised(ImageOf(pixels), palette, stride)
  {
    var i := 0;
    while i < pixels.Length0
      invariant OnGrid(i, stride)
      invariant forall x, y :: 0 <= x < pixels.Length0 && 0 <= y < pixels.Length1 ==>
        pixels[x, y] == if x < i && Sampled(x, y, stride) then Nearest(palette, old(pixels[x, y])) else old(pixels[x, y])
    {
      QuantiseColumn(pixels, palette, stride, i);
      forall x | 0 <= x < pixels.Length0 && i < x && OnGrid(x, stride) ensures i + stride <= x {
        OnGridApart(i, x, stride);
      }
      i := i + stride;
    }
    QuantisedImage(pixels, palette, stride);
  }

  /**
   * The inner loop of the quantise pass for sampled column i: every sampled pixel of the
   * column becomes its nearest palette colour, and nothing else changes.
   */
  method QuantiseColumn(pixels: array2<Rgb>, palette: seq<Entry>, stride: Stride, i: nat)
    requires i < pixels.Length0 && OnGrid(i, stride)
    requires |palette| > 0 || pixels.Length1 == 0
    modifies pixels
    ensures forall x, y :: 0 <= x < pixels.Length0 && 0 <= y < pixels.Length1 ==>
      pixels[x, y] == if x == i && OnGrid(y, stride) then Nearest(palette, old(pixels[x, y])) else old(pixels[x, y])
  {
    var j := 0;
    while j < pixels.Length1
      invariant OnGrid(j, stride)
      invariant forall x, y :: 0 <= x < pixels.Length0 && 0 <= y < pixels.Length1 ==>
        pixels[x, y] == if x == i && y < j && OnGrid(y, stride) then Nearest(palette, old(pixels[x, y])) else old(pixels[x, y])
    {
      var colour := NearestColour(pixels[i, j], palette);
      pixels[i, j] := colour;
      forall y | 0 <= y < pixels.Length1 && j < y && OnGrid(y, stride) ensures j + stride <= y {
        OnGridApart(j, y, stride);
      }
      j := j + stride;
    }
  }

  lemma QuantisedImage(pixels: array2<Rgb>, palette: seq<Entry>, stride: Stride)
    requires forall x, y :: 0 <= x < pixels.Length0 && 0 <= y < pixels.Length1 && Sampled(x, y, stride) ==> Has(palette, pixels[x, y])
    ensures Quantised(ImageOf(pixels), palette, stride)
  {
  }

  /** After a release on a colour change at column x: move to the next colour and click it. */
  ghost function Reselect(row: seq<Rgb>, palette: seq<Entry>, stride: Stride, x: nat): seq<Event>
    requires x < |row|
  {
    if x < |row| - stride && row[x] != row[x + stride] then [Release, Move(Select(palette, row[x + stride])), Click]
    else []
  }

  /** The events of row y from sampled column x to the end of the row. */
  ghost function Columns(row: seq<Rgb>, palette: seq<Entry>, canvas: Rect, stride: Stride, y: int, x: nat): Path
    decreases |row| - x
  {
    if x >= |row| then Path([], false)
    else if OutOfBounds(Dest(canvas, x, y), canvas) then Path([Move(Dest(canvas, x, y))], true)
    else
      var rest := Columns(row, palette, canvas, stride, y, x + stride);
      Path([Move(Dest(canvas, x, y)), Press] + Reselect(row, palette, stride, x) + rest.events, rest.aborted)
  }

  /** The colour-selecting click at the start of a row: the colour of its first pixel. */
  ghost function SelectFirst(row: seq<Rgb>, palette: seq<Entry>): seq<Event>
    requires 0 < |row|
  {
    [Move(Select(palette, row[0])), Press, Release]
  }

  /** The events of row y: select the first pixel's colour, paint the row, release. */
  ghost function Row(row: seq<Rgb>, palette: seq<Entry>, canvas: Rect, stride: Stride, y: int): Path
    requires 0 < |row|
  {
    var cols := Columns(row, palette, canvas, stride, y, 0);
    var head := SelectFirst(row, palette);
    if cols.aborted then Path(head + cols.events, true) else Path(head + cols.events + [Release], false)
  }

  /** The events from sampled row y on, ending with the final release of the button. */
  ghost function Rows(img: seq<seq<Rgb>>, palette: seq<Entry>, canvas: Rect, stride: Stride, y: nat): Path
    requires NonEmptyRows(img)
    decreases |img| - y
  {
    if y >= |img| then Path([Release], false)
    else
      var row := Row(img[y], palette, canvas, stride, y);
      if row.aborted then row
      else
        var rest := Rows(img, palette, canvas, stride, y + stride);
        Path(row.events + rest.events, rest.aborted)
  }

  /**
   * One pass of the printing loop's row body: select the colour of pixel (0, y), then move
   * and press at each sampled column, releasing and clicking the next colour only where the
   * colour changes; `aborted` reports that the out-of-bounds test fired.
   */
  method EmitRow(pixels: array2<Rgb>, palette: seq<Entry>, canvas: Rect, stride: Stride, y: nat)
    returns (events: seq<Event>, aborted: bool)
    requires 0 < pixels.Length0 && y < pixels.Length1
    ensures Path(events, aborted) == Row(RowOf(pixels, y), palette, canvas, stride, y)
  {
    ghost var row := RowOf(pixels, y);
    assert OnGrid(0, stride);
    events := [Move(Select(palette, pixels[0, y])), Press, Release];
    ghost var cols := Columns(row, palette, canvas, stride, y, 0);
    ghost var all := Path(events + cols.events, cols.aborted);
    var x := 0;
    while x < pixels.Length0
      invariant 0 <= x && OnGrid(x, stride)
      invariant all.events == events + Columns(row, palette, canvas, stride, y, x).events
      invariant all.aborted == Columns(row, palette, canvas, stride, y, x).aborted
    {
      var step, stop := EmitColumn(pixels, palette, canvas, stride, x, y);
      ColumnsStep(row, palette, canvas, stride, y, x, events, step, stop, all);
      events := events + step;
      if stop {
        aborted := true;
        return;
      }
      x := x + stride;
    }
    events := events + [Release];
    aborted := false;
  }

  /**
   * The body of the column loop at sampled column x: move there, give up if that is out of
   * bounds, otherwise press, and on a colour change release and click the next colour.
   */
  method EmitColumn(pixels: array2<Rgb>, palette: seq<Entry>, canvas: Rect, stride: Stride, x: nat, y: nat)
    returns (step: seq<Event>, stop: bool)
    requires x < pixels.Length0 && y < pixels.Length1
    requires OnGrid(x, stride)
    ensures stop <==> OutOfBounds(Dest(canvas, x, y), canvas)
    ensures stop ==> step == [Move(Dest(canvas, x, y))]
    ensures !stop ==> step == [Move(Dest(canvas, x, y))] + [Press] + Reselect(RowOf(pixels, y), palette, stride, x)
  {
    ghost var row := RowOf(pixels, y);
    var dest := Point(x + canvas.x1, y + canvas.y1);
    step := [Move(dest)];
    if dest.x > canvas.x2 + Tolerance || dest.y > canvas.y2 + Tolerance {
      // "Out of bounds! Cancelling operation"
      return step, true;
    }
    step := step + [Press];
    if x < pixels.Length0 - stride && pixels[x, y] != pixels[x + stride, y] {
      OnGridNext(x, stride);
      assert row[x + stride] == pixels[x + stride, y];
      step := step + [Release, Move(Select(palette, pixels[x + stride, y])), Click];
    } else {
      assert x < pixels.Length0 - stride ==> row[x + stride] == pixels[x + stride, y];
    }
    stop := false;
  }

  /**
   * One pass of the column loop: if `events` followed by the columns from x on make up
   * `all`, then after column x's own events either that column cancelled the draw or the
   * columns from the next sampled one on complete `all`.
   */
  lemma ColumnsStep(row: seq<Rgb>, palette: seq<Entry>, canvas: Rect, stride: Stride, y: int, x: nat,
                    events: seq<Event>, step: seq<Event>, stop: bool, all: Path)
    requires x < |row| && OnGrid(x, stride)
    requires stop <==> OutOfBounds(Dest(canvas, x, y), canvas)
    requires stop ==> step == [Move(Dest(canvas, x, y))]
    requires !stop ==> step == [Move(Dest(canvas, x, y))] + [Press] + Reselect(row, palette, stride, x)
    requires all.events == events + Columns(row, palette, canvas, stride, y, x).events
    requires all.aborted == Columns(row, palette, canvas, stride, y, x).aborted
    ensures OnGrid(x + stride, stride)
    ensures stop ==> all.events == events + step && all.aborted
    ensures !stop ==> all.events == (events + step) + Columns(row, palette, canvas, stride, y, x + stride).events
    ensures !stop ==> all.aborted == Columns(row, palette, canvas, stride, y, x + stride).aborted
  {
    OnGridNext(x, stride);
    var cols := Columns(row, palette, canvas, stride, y, x);
    if !stop {
      var rest := Columns(row, palette, canvas, stride, y, x + stride);
      assert cols.events == step + rest.events && cols.aborted == rest.aborted;
      assert events + (step + rest.events) == (events + step) + rest.events;
    }
  }

  /**
   * One pass of the row loop: if `events` followed by the rows from y on make up `all`, then
   * after row y's own events either the draw was cancelled in row y or the rows from the
   * next sampled row on complete `all`.
   */
  lemma RowsStep(img: seq<seq<Rgb>>, palette: seq<Entry>, canvas: Rect, stride: Stride, y: nat,
                 events: seq<Event>, row: seq<Event>, stop: bool, all: Path)
    requires NonEmptyRows(img) && y < |img| && OnGrid(y, stride)
    requires Path(row, stop) == Row(img[y], palette, canvas, stride, y)
    requires all.events == events + Rows(img, palette, canvas, stride, y).events
    requires all.aborted == Rows(img, palette, canvas, stride, y).aborted
    ensures OnGrid(y + stride, stride)
    ensures stop ==> all.events == events + row && all.aborted
    ensures !stop ==> all.events == (events + row) + Rows(img, palette, canvas, stride, y + stride).events
    ensures !stop ==> all.aborted == Rows(img, palette, canvas, stride, y + stride).aborted
  {
    OnGridNext(y, stride);
    if !stop {
      var rest := Rows(img, palette, canvas, stride, y + stride);
      assert events + (row + rest.events) == (events + row) + rest.events;
    }
  }

  /**
   * The printing loop of `draw` over an already quantised image: emits exactly the events
   * of Rows, stopping right after the move to the first out-of-bounds destination.
   */
  method EmitPath(pixels: array2<Rgb>, palette: seq<Entry>, canvas: Rect, stride: Stride)
    returns (events: seq<Event>, aborted: bool)
    requires 0 < pixels.Length0 || pixels.Length1 == 0
    ensures NonEmptyRows(ImageOf(pixels))
    ensures Path(events, aborted) == Rows(ImageOf(pixels), palette, canvas, stride, 0)
  {
    ghost var img := ImageOf(pixels);
    ghost var all := Rows(img, palette, canvas, stride, 0);
    events, aborted := [], false;
    var y := 0;
    while y < pixels.Length1 && !aborted
      invariant 0 <= y && OnGrid(y, stride)
      invariant !aborted ==> all.events == events + Rows(img, palette, canvas, stride, y).events
      invariant !aborted ==> all.aborted == Rows(img, palette, canvas, stride, y).aborted
      invariant aborted ==> all.events == events && all.aborted
    {
      assert img[y] == RowOf(pixels, y);
      var row, stop := EmitRow(pixels, palette, canvas, stride, y);
      RowsStep(img, palette, canvas, stride, y, events, row, stop, all);
      events := events + row;
      // "Out of bounds! Cancelling operation" ends the whole draw
      aborted := stop;
      y := y + stride;
    }
    if !aborted {
      events := events + [Release];
    }
  }

  /** `draw` from the moment the image is resized: quantise in place, then print. */
  method Draw(pixels: array2<Rgb>, palette: seq<Entry>, canvas: Rect, stride: Stride)
    returns (events: seq<Event>, aborted: bool)
    requires |palette| > 0 || pixels.Length1 == 0
    requires 0 < pixels.Length0 || pixels.Length1 == 0
    modifies pixels
    ensures forall x, y :: 0 <= x < pixels.Length0 && 0 <= y < pixels.Length1 ==>
      pixels[x, y] == if Sampled(x, y, stride) then Nearest(palette, old(pixels[x, y])) else old(pixels[x, y])
    ensures NonEmptyRows(ImageOf(pixels)) && Quantised(ImageOf(pixels), palette, stride)
    ensures Path(events, aborted) == Rows(ImageOf(pixels), palette, canvas, stride, 0)
  {
    Quantise(pixels, palette, stride);
    events, aborted := EmitPath(pixels, palette, canvas, stride);
  }
}
