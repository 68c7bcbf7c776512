/**
 * A reference semantics for the paint program the drawing routine drives: clicking a
 * palette position picks that colour as the brush, pressing elsewhere dabs the brush colour
 * on the cursor's position, and moving with the button held dabs every point moved to.
 * Replaying a complete click path from `Drawing` on it puts every sampled pixel's quantised
 * colour at that pixel's screen position.
 */
module Painting {
  import opened Wrappers
  import opened Geometry
  import opened Palette
  import opened Drawing

  /** The paint program: cursor position, button state, brush colour and painted points. */
  datatype Screen = Screen(pos: Point, down: bool, brush: Option<Rgb>, paint: map<Point, Rgb>)

  /** Cursor at the origin, button up, no colour picked, nothing painted. */
  const Start := Screen(Point(0, 0), false, None, map[])

  /** The brush colour put on point q, when a colour has been picked. */
  function Dab(s: Screen, q: Point): map<Point, Rgb>
  {
    if s.brush.Some? then s.paint[q := s.brush.value] else s.paint
  }

  /** Pressing the button: on a palette position it picks the colour, elsewhere it dabs. */
  function PressAt(palette: seq<Entry>, s: Screen): Screen
  {
    match ColourAt(palette, s.pos)
    case Some(c) => s.(down := true, brush := Some(c))
    case None => s.(down := true, paint := Dab(s, s.pos))
  }

  function Step(palette: seq<Entry>, s: Screen, e: Event): Screen
  {
    match e
    case Move(p) => if s.down then s.(pos := p, paint := Dab(s.(pos := p), p)) else s.(pos := p)
    case Press => PressAt(palette, s)
    case Release => s.(down := false)
    case Click => PressAt(palette, s).(down := false)
  }

  /** The screen after the events, in order. */
  function Replay(palette: seq<Entry>, s: Screen, events: seq<Event>): Screen
    decreases |events|
  {
    if events == [] then s else Replay(palette, Step(palette, s, events[0]), events[1..])
  }

  lemma {:induction false} ReplayAppend(palette: seq<Entry>, s: Screen, a: seq<Event>, b: seq<Event>)
    ensures Replay(palette, s, a + b) == Replay(palette, Replay(palette, s, a), b)
    decreases |a|
  {
    if a == [] {
      assert a + b == b;
    } else {
      assert (a + b)[0] == a[0] && (a + b)[1..] == a[1..] + b;
      ReplayAppend(palette, Step(palette, s, a[0]), a[1..], b);
    }
  }

  /** Replaying one event is one step. */
  lemma ReplayOne(palette: seq<Entry>, s: Screen, a: Event)
    ensures Replay(palette, s, [a]) == Step(palette, s, a)
  {
    assert [a][1..] == [];
  }

  /** Replaying two events is stepping through them one after the other. */
  lemma ReplayTwo(palette: seq<Entry>, s: Screen, a: Event, b: Event)
    ensures Replay(palette, s, [a, b]) == Step(palette, Step(palette, s, a), b)
  {
    assert [a, b][1..] == [b];
    ReplayOne(palette, Step(palette, s, a), b);
  }

  /** Replaying three events is stepping through them one after the other. */
  lemma ReplayThree(palette: seq<Entry>, s: Screen, a: Event, b: Event, c: Event)
    ensures Replay(palette, s, [a, b, c]) == Step(palette, Step(palette, Step(palette, s, a), b), c)
  {
    assert [a, b, c][1..] == [b, c];
    ReplayTwo(palette, Step(palette, s, a), b, c);
  }

  /** The points a non-cancelled draw may move to: right of and below the canvas' top-left corner, within the tolerance. */
  predicate Covers(p: Point, canvas: Rect)
  {
    canvas.x1 <= p.x && canvas.y1 <= p.y && !OutOfBounds(p, canvas)
  }

  /** Every palette position lies outside the area the image is drawn on. */
  predicate PaletteOffCanvas(palette: seq<Entry>, canvas: Rect)
  {
    forall i :: 0 <= i < |palette| ==> !Covers(palette[i].pos, canvas)
  }

  predicate Painted(paint: map<Point, Rgb>, q: Point, c: Rgb)
  {
    q in paint && paint[q] == c
  }

  /** Point q is painted alike, or unpainted in both. */
  predicate Agree(m: map<Point, Rgb>, m': map<Point, Rgb>, q: Point)
  {
    (q in m <==> q in m') && (q in m ==> m[q] == m'[q])
  }

  /** Every sampled pixel of row y from column `from` on is painted at its destination. */
  predicate RowPaintedFrom(m: map<Point, Rgb>, row: seq<Rgb>, canvas: Rect, stride: Stride, y: int, from: int)
  {
    forall x :: from <= x < |row| && OnGrid(x, stride) ==> Painted(m, Dest(canvas, x, y), row[x])
  }

  /** Every sampled pixel of the rows from `from` on is painted at its destination. */
  predicate ImagePaintedFrom(m: map<Point, Rgb>, img: seq<seq<Rgb>>, canvas: Rect, stride: Stride, from: nat)
  {
    forall x, y :: from <= y < |img| && 0 <= x < |img[y]| && Sampled(x, y, stride) ==> Painted(m, Dest(canvas, x, y), img[y][x])
  }

  /** Points in other rows than row y, or left of screen column x in it, are kept. */
  ghost predicate KeepsBefore(m: map<Point, Rgb>, m': map<Point, Rgb>, canvas: Rect, y: int, x: int)
  {
    forall q: Point :: q.y != y + canvas.y1 || q.x < x + canvas.x1 ==> Agree(m, m', q)
  }

  /** Points in other rows than row y are kept. */
  ghost predicate KeepsOtherRows(m: map<Point, Rgb>, m': map<Point, Rgb>, canvas: Rect, y: int)
  {
    forall q: Point :: q.y != y + canvas.y1 ==> Agree(m, m', q)
  }

  /** Points in rows above row y are kept. */
  ghost predicate KeepsAbove(m: map<Point, Rgb>, m': map<Point, Rgb>, canvas: Rect, y: int)
  {
    forall q: Point :: q.y < y + canvas.y1 ==> Agree(m, m', q)
  }

  /** Clicking the position recorded for a palette colour picks that colour. */
  lemma SelectPicks(palette: seq<Entry>, c: Rgb)
    requires DistinctPositions(palette) && Has(palette, c)
    ensures ColourAt(palette, Select(palette, c)) == Some(c)
  {
    SelectLookup(palette, c);
    ColourAtLookup(palette, c);
  }

  /**
   * One sampled column whose destination is in bounds: the brush colour, which is the
   * pixel's, is dabbed on its destination and on nothing else, and after a colour change
   * the next pixel's colour is picked.
   */
  lemma ColumnPaint(palette: seq<Entry>, row: seq<Rgb>, canvas: Rect, stride: Stride, y: nat, x: nat, s: Screen)
    requires x < |row| && OnGrid(x, stride) && !OutOfBounds(Dest(canvas, x, y), canvas)
    requires DistinctPositions(palette) && RowQuantised(row, palette, stride) && PaletteOffCanvas(palette, canvas)
    requires s.brush == Some(row[x])
    ensures var t := Replay(palette, s, [Move(Dest(canvas, x, y)), Press] + Reselect(row, palette, stride, x));
      && t.paint == s.paint[Dest(canvas, x, y) := row[x]]
      && (x + stride < |row| ==> t.brush == Some(row[x + stride]))
  {
    OnGridNonNegative(x, stride);
    var d := Dest(canvas, x, y);
    var s2 := Replay(palette, s, [Move(d), Press]);
    ReplayTwo(palette, s, Move(d), Press);
    assert ColourAt(palette, d) == None;
    assert s2.paint == s.paint[d := row[x]] && s2.brush == s.brush;
    ReplayAppend(palette, s, [Move(d), Press], Reselect(row, palette, stride, x));
    if x < |row| - stride && row[x] != row[x + stride] {
      OnGridNext(x, stride);
      var c := row[x + stride];
      SelectPicks(palette, c);
      ReplayThree(palette, s2, Release, Move(Select(palette, c)), Click);
    }
  }

  /**
   * The columns of row y from sampled column x on, when none cancels the draw: each one's
   * destination gets its pixel's colour, and points left of column x or in other rows
   * keep theirs.
   */
  lemma {:induction false} ColumnsPaint(palette: seq<Entry>, row: seq<Rgb>, canvas: Rect, stride: Stride, y: nat, x: nat, s: Screen)
    requires OnGrid(x, stride) && !Columns(row, palette, canvas, stride, y, x).aborted
    requires DistinctPositions(palette) && RowQuantised(row, palette, stride) && PaletteOffCanvas(palette, canvas)
    requires x < |row| ==> s.brush == Some(row[x])
    ensures var t := Replay(palette, s, Columns(row, palette, canvas, stride, y, x).events);
      RowPaintedFrom(t.paint, row, canvas, stride, y, x) && KeepsBefore(s.paint, t.paint, canvas, y, x)
    decreases |row| - x
  {
    if x < |row| {
      var d := Dest(canvas, x, y);
      var step := [Move(d), Press] + Reselect(row, palette, stride, x);
      var rest := Columns(row, palette, canvas, stride, y, x + stride);
      ColumnPaint(palette, row, canvas, stride, y, x, s);
      var s1 := Replay(palette, s, step);
      OnGridNext(x, stride);
      ColumnsPaint(palette, row, canvas, stride, y, x + stride, s1);
      ReplayAppend(palette, s, step, rest.events);
      var t := Replay(palette, s1, rest.events);
      assert RowPaintedFrom(t.paint, row, canvas, stride, y, x + stride) && KeepsBefore(s1.paint, t.paint, canvas, y, x + stride);
      ColumnsCombine(row, canvas, stride, y, x, s.paint, s1.paint, t.paint);
    }
  }

  /**
   * The bookkeeping of one column: dabbing column x and then painting the columns after it
   * paints the columns from x on, and what lies left of column x or in another row is kept.
   */
  lemma ColumnsCombine(row: seq<Rgb>, canvas: Rect, stride: Stride, y: nat, x: nat,
                       m0: map<Point, Rgb>, m1: map<Point, Rgb>, m2: map<Point, Rgb>)
    requires x < |row| && OnGrid(x, stride)
    requires m1 == m0[Dest(canvas, x, y) := row[x]]
    requires RowPaintedFrom(m2, row, canvas, stride, y, x + stride) && KeepsBefore(m1, m2, canvas, y, x + stride)
    ensures RowPaintedFrom(m2, row, canvas, stride, y, x) && KeepsBefore(m0, m2, canvas, y, x)
  {
    forall x' | x <= x' < |row| && OnGrid(x', stride)
      ensures Painted(m2, Dest(canvas, x', y), row[x'])
    {
      if x' != x {
        OnGridApart(x, x', stride);
      } else {
        assert Agree(m1, m2, Dest(canvas, x, y));
      }
    }
    forall q: Point | q.y != y + canvas.y1 || q.x < x + canvas.x1
      ensures Agree(m0, m2, q)
    {
      assert Agree(m1, m2, q);
    }
  }

  /**
   * A row that does not cancel the draw, started with the button up: picks its first
   * pixel's colour, paints every sampled pixel of the row at its destination, leaves the
   * other rows alone and ends with the button up.
   */
  lemma RowPaint(palette: seq<Entry>, row: seq<Rgb>, canvas: Rect, stride: Stride, y: nat, s: Screen)
    requires 0 < |row| && !Row(row, palette, canvas, stride, y).aborted && !s.down
    requires DistinctPositions(palette) && RowQuantised(row, palette, stride) && PaletteOffCanvas(palette, canvas)
    ensures var t := Replay(palette, s, Row(row, palette, canvas, stride, y).events);
      !t.down && RowPaintedFrom(t.paint, row, canvas, stride, y, 0) && KeepsOtherRows(s.paint, t.paint, canvas, y)
  {
    assert OnGrid(0, stride);
    var head := SelectFirst(row, palette);
    var cols := Columns(row, palette, canvas, stride, y, 0);
    SelectPicks(palette, row[0]);
    var s1 := Replay(palette, s, head);
    ReplayThree(palette, s, head[0], head[1], head[2]);
    assert s1.paint == s.paint && s1.brush == Some(row[0]);
    ColumnsPaint(palette, row, canvas, stride, y, 0, s1);
    ReplayAppend(palette, s, head, cols.events);
    ReplayAppend(palette, s, head + cols.events, [Release]);
  }

  /**
   * The rows from sampled row y on, when none cancels the draw: every sampled pixel of
   * them is painted at its destination, and rows above y are left alone.
   */
  lemma {:induction false} RowsPaint(img: seq<seq<Rgb>>, palette: seq<Entry>, canvas: Rect, stride: Stride, y: nat, s: Screen)
    requires NonEmptyRows(img) && OnGrid(y, stride) && !Rows(img, palette, canvas, stride, y).aborted && !s.down
    requires DistinctPositions(palette) && Quantised(img, palette, stride) && PaletteOffCanvas(palette, canvas)
    ensures var t := Replay(palette, s, Rows(img, palette, canvas, stride, y).events);
      ImagePaintedFrom(t.paint, img, canvas, stride, y) && KeepsAbove(s.paint, t.paint, canvas, y)
    decreases |img| - y
  {
    if y < |img| {
      var row := Row(img[y], palette, canvas, stride, y);
      var rest := Rows(img, palette, canvas, stride, y + stride);
      RowPaint(palette, img[y], canvas, stride, y, s);
      var s1 := Replay(palette, s, row.events);
      OnGridNext(y, stride);
      RowsPaint(img, palette, canvas, stride, y + stride, s1);
      ReplayAppend(palette, s, row.events, rest.events);
      var t := Replay(palette, s1, rest.events);
      assert RowPaintedFrom(s1.paint, img[y], canvas, stride, y, 0) && KeepsOtherRows(s.paint, s1.paint, canvas, y);
      assert ImagePaintedFrom(t.paint, img, canvas, stride, y + stride) && KeepsAbove(s1.paint, t.paint, canvas, y + stride);
      RowsCombine(img, canvas, stride, y, s.paint, s1.paint, t.paint);
    }
  }

  /**
   * The bookkeeping of one row: painting row y and then the rows below it paints every row
   * from y on, and the rows above y are kept.
   */
  lemma RowsCombine(img: seq<seq<Rgb>>, canvas: Rect, stride: Stride, y: nat,
                    m0: map<Point, Rgb>, m1: map<Point, Rgb>, m2: map<Point, Rgb>)
    requires y < |img| && OnGrid(y, stride)
    requires RowPaintedFrom(m1, img[y], canvas, stride, y, 0) && KeepsOtherRows(m0, m1, canvas, y)
    requires ImagePaintedFrom(m2, img, canvas, stride, y + stride) && KeepsAbove(m1, m2, canvas, y + stride)
    ensures ImagePaintedFrom(m2, img, canvas, stride, y) && KeepsAbove(m0, m2, canvas, y)
  {
    forall x', y' | y <= y' < |img| && 0 <= x' < |img[y']| && Sampled(x', y', stride)
      ensures Painted(m2, Dest(canvas, x', y'), img[y'][x'])
    {
      if y' != y {
        OnGridApart(y, y', stride);
      } else {
        assert Agree(m1, m2, Dest(canvas, x', y));
      }
    }
    forall q: Point | q.y < y + canvas.y1
      ensures Agree(m0, m2, q)
    {
      assert Agree(m0, m1, q) && Agree(m1, m2, q);
    }
  }

  /**
   * The point of the drawing routine: when the palette positions are distinct and off the
   * canvas and the draw is not cancelled, replaying its events on a fresh screen paints
   * every sampled pixel's colour at that pixel's screen position.
   */
  lemma PathPaintsImage(img: seq<seq<Rgb>>, palette: seq<Entry>, canvas: Rect, stride: Stride)
    requires NonEmptyRows(img) && Quantised(img, palette, stride)
    requires DistinctPositions(palette) && PaletteOffCanvas(palette, canvas)
    requires !Rows(img, palette, canvas, stride, 0).aborted
    ensures forall x, y :: 0 <= y < |img| && 0 <= x < |img[y]| && Sampled(x, y, stride) ==>
      Painted(Replay(palette, Start, Rows(img, palette, canvas, stride, 0).events).paint, Dest(canvas, x, y), img[y][x])
  {
    assert OnGrid(0, stride);
    RowsPaint(img, palette, canvas, stride, 0, Start);
  }
}
