/**
 * What the click path of the drawing routine promises, stated apart from how Columns,
 * Row and Rows build it: when the draw is cancelled, how it ends, and how many colour
 * changes a row costs.
 */
module ClickPath {
  import opened Geometry
  import opened Palette
  import opened Drawing

  /**
   * The columns from sampled column x on cancel the draw exactly when some sampled column
   * at or after x has an out-of-bounds destination.
   */
  lemma {:induction false} ColumnsAborted(row: seq<Rgb>, palette: seq<Entry>, canvas: Rect, stride: Stride, y: int, x: nat)
    requires OnGrid(x, stride)
    ensures Columns(row, palette, canvas, stride, y, x).aborted <==>
      exists c :: x <= c < |row| && OnGrid(c, stride) && OutOfBounds(Dest(canvas, c, y), canvas)
    decreases |row| - x
  {
    if x < |row| && !OutOfBounds(Dest(canvas, x, y), canvas) {
      OnGridNext(x, stride);
      ColumnsAborted(row, palette, canvas, stride, y, x + stride);
      if c :| x <= c < |row| && OnGrid(c, stride) && OutOfBounds(Dest(canvas, c, y), canvas) {
        OnGridApart(x, c, stride);
      }
    }
  }

  /**
   * The whole draw is cancelled exactly when some sampled pixel at or below row y has an
   * out-of-bounds destination; otherwise every sampled pixel is moved to and pressed.
   */
  lemma {:induction false} RowsAborted(img: seq<seq<Rgb>>, palette: seq<Entry>, canvas: Rect, stride: Stride, y: nat)
    requires NonEmptyRows(img) && OnGrid(y, stride)
    ensures Rows(img, palette, canvas, stride, y).aborted <==>
      exists r, c :: y <= r < |img| && 0 <= c < |img[r]| && Sampled(c, r, stride) && OutOfBounds(Dest(canvas, c, r), canvas)
    decreases |img| - y
  {
    if y < |img| {
      assert OnGrid(0, stride);
      ColumnsAborted(img[y], palette, canvas, stride, y, 0);
      OnGridNext(y, stride);
      RowsAborted(img, palette, canvas, stride, y + stride);
      if r, c :| y <= r < |img| && 0 <= c < |img[r]| && Sampled(c, r, stride) && OutOfBounds(Dest(canvas, c, r), canvas) {
        if r != y {
          OnGridApart(y, r, stride);
        } else {
          OnGridNonNegative(c, stride);
        }
      }
    }
  }

  /** A draw of the whole image is cancelled exactly when a sampled pixel lands out of bounds. */
  lemma PathAborted(img: seq<seq<Rgb>>, palette: seq<Entry>, canvas: Rect, stride: Stride)
    requires NonEmptyRows(img)
    ensures Rows(img, palette, canvas, stride, 0).aborted <==>
      exists y, x :: 0 <= y < |img| && 0 <= x < |img[y]| && Sampled(x, y, stride) && OutOfBounds(Dest(canvas, x, y), canvas)
  {
    assert OnGrid(0, stride);
    RowsAborted(img, palette, canvas, stride, 0);
  }

  /**
   * The colour-change rule of one in-bounds column: move there and press; then release and
   * click the next sampled pixel's colour exactly when there is a next sampled column and
   * its colour differs; then the columns after x follow.
   */
  lemma ColumnRule(row: seq<Rgb>, palette: seq<Entry>, canvas: Rect, stride: Stride, y: int, x: nat)
    requires x < |row| && !OutOfBounds(Dest(canvas, x, y), canvas)
    ensures Columns(row, palette, canvas, stride, y, x).events ==
      [Move(Dest(canvas, x, y)), Press]
      + (if x + stride < |row| && row[x] != row[x + stride] then [Release, Move(Select(palette, row[x + stride])), Click] else [])
      + Columns(row, palette, canvas, stride, y, x + stride).events
    ensures Columns(row, palette, canvas, stride, y, x).aborted == Columns(row, palette, canvas, stride, y, x + stride).aborted
  {
  }

  /** The event a path ends with: the cancelling move, or a release of the button. */
  predicate EndsRight(p: Path, canvas: Rect)
  {
    && |p.events| > 0
    && var last := p.events[|p.events| - 1];
       if p.aborted then last.Move? && OutOfBounds(last.to, canvas) else last == Release
  }

  /** A cancelled run of columns ends with the move that went out of bounds. */
  lemma {:induction false} ColumnsEnd(row: seq<Rgb>, palette: seq<Entry>, canvas: Rect, stride: Stride, y: int, x: nat)
    ensures var cols := Columns(row, palette, canvas, stride, y, x);
      cols.aborted ==> EndsRight(cols, canvas)
    decreases |row| - x
  {
    if x < |row| && !OutOfBounds(Dest(canvas, x, y), canvas) {
      ColumnsEnd(row, palette, canvas, stride, y, x + stride);
    }
  }

  /**
   * Every path ends well: a cancelled draw stops right after the out-of-bounds move, with
   * no press after it, and a finished one ends by releasing the button.
   */
  lemma {:induction false} RowsEnd(img: seq<seq<Rgb>>, palette: seq<Entry>, canvas: Rect, stride: Stride, y: nat)
    requires NonEmptyRows(img)
    ensures EndsRight(Rows(img, palette, canvas, stride, y), canvas)
    decreases |img| - y
  {
    if y < |img| {
      ColumnsEnd(img[y], palette, canvas, stride, y, 0);
      RowsEnd(img, palette, canvas, stride, y + stride);
    }
  }

  /** How often e occurs in events. */
  function Count(events: seq<Event>, e: Event): nat
  {
    if events == [] then 0 else (if events[0] == e then 1 else 0) + Count(events[1..], e)
  }

  lemma {:induction false} CountAppend(a: seq<Event>, b: seq<Event>, e: Event)
    ensures Count(a + b, e) == Count(a, e) + Count(b, e)
  {
    if a == [] {
      assert a + b == b;
    } else {
      assert (a + b)[1..] == a[1..] + b;
      CountAppend(a[1..], b, e);
    }
  }

  /** Sampled columns from x on whose colour differs from the next sampled column's. */
  function Changes(row: seq<Rgb>, stride: Stride, x: nat): nat
    decreases |row| - x
  {
    if x + stride >= |row| then 0
    else (if row[x] != row[x + stride] then 1 else 0) + Changes(row, stride, x + stride)
  }

  /**
   * A row that is not cancelled clicks a colour once per colour change between adjacent
   * sampled columns, and releases the button once more than that for each of its first
   * selection and its end.
   */
  lemma {:induction false} ColumnsCount(row: seq<Rgb>, palette: seq<Entry>, canvas: Rect, stride: Stride, y: int, x: nat)
    requires !Columns(row, palette, canvas, stride, y, x).aborted
    ensures Count(Columns(row, palette, canvas, stride, y, x).events, Click) == Changes(row, stride, x)
    ensures Count(Columns(row, palette, canvas, stride, y, x).events, Release) == Changes(row, stride, x)
    decreases |row| - x
  {
    if x < |row| {
      var d := Dest(canvas, x, y);
      var re := Reselect(row, palette, stride, x);
      var rest := Columns(row, palette, canvas, stride, y, x + stride);
      ColumnsCount(row, palette, canvas, stride, y, x + stride);
      CountAppend([Move(d), Press] + re, rest.events, Click);
      CountAppend([Move(d), Press] + re, rest.events, Release);
      CountAppend([Move(d), Press], re, Click);
      CountAppend([Move(d), Press], re, Release);
      assert [Move(d), Press][1..] == [Press] && [Press][1..] == [];
      assert Count([Press], Click) == 0 && Count([Press], Release) == 0;
      if re != [] {
        var m := Move(Select(palette, row[x + stride]));
        assert re[1..] == [m, Click] && [m, Click][1..] == [Click] && [Click][1..] == [];
        assert Count([Click], Click) == 1 && Count([Click], Release) == 0;
        assert Count([m, Click], Click) == 1 && Count([m, Click], Release) == 0;
      }
    }
  }

  /** Clicks and releases of a whole row that is not cancelled. */
  lemma RowCount(row: seq<Rgb>, palette: seq<Entry>, canvas: Rect, stride: Stride, y: int)
    requires 0 < |row| && !Row(row, palette, canvas, stride, y).aborted
    ensures Count(Row(row, palette, canvas, stride, y).events, Click) == Changes(row, stride, 0)
    ensures Count(Row(row, palette, canvas, stride, y).events, Release) == Changes(row, stride, 0) + 2
  {
    var head := SelectFirst(row, palette);
    var cols := Columns(row, palette, canvas, stride, y, 0);
    ColumnsCount(row, palette, canvas, stride, y, 0);
    CountAppend(head, cols.events, Click);
    CountAppend(head, cols.events, Release);
    CountAppend(head + cols.events, [Release], Click);
    CountAppend(head + cols.events, [Release], Release);
    assert head[1..] == [Press, Release] && head[1..][1..] == [Release] && [Release][1..] == [];
  }
}
