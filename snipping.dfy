/**
 * The region selector: a full-screen window in which the user drags out a rectangle, and
 * `get_bbox`, which reopens the window until the rectangle is more than 10 pixels in each
 * direction.
 */
module Snipping {
  import opened Wrappers
  import opened Geometry

  /** What the selection window receives from the mouse. */
  datatype MouseEvent = Pressed(at: Point) | Moved(to: Point) | Released

  function Min(a: int, b: int): int { if a <= b then a else b }
  function Max(a: int, b: int): int { if a <= b then b else a }

  /** p lies in r, edges included. */
  predicate Contains(r: Rect, p: Point)
  {
    r.x1 <= p.x <= r.x2 && r.y1 <= p.y <= r.y2
  }

  /** r lies in q. */
  predicate Within(r: Rect, q: Rect)
  {
    q.x1 <= r.x1 && r.x2 <= q.x2 && q.y1 <= r.y1 && r.y2 <= q.y2
  }

  /**
   * The rectangle spanned by the drag from a to b with its corners ordered: the smallest
   * rectangle holding both points.
   */
  function Normalise(a: Point, b: Point): (r: Rect)
    ensures r.x1 <= r.x2 && r.y1 <= r.y2
    ensures Contains(r, a) && Contains(r, b)
    ensures forall q :: Contains(q, a) && Contains(q, b) ==> Within(r, q)
  {
    Rect(Min(a.x, b.x), Min(a.y, b.y), Max(a.x, b.x), Max(a.y, b.y))
  }

  /** Dragging from either corner to the other selects the same rectangle. */
  lemma NormaliseSymmetric(a: Point, b: Point)
    ensures Normalise(a, b) == Normalise(b, a)
  {
  }

  /** Dragging between the corners of an ordered rectangle selects that rectangle. */
  lemma NormaliseCorners(r: Rect)
    requires r.x1 <= r.x2 && r.y1 <= r.y2
    ensures Normalise(Point(r.x1, r.y1), Point(r.x2, r.y2)) == r
    ensures Normalise(Point(r.x2, r.y1), Point(r.x1, r.y2)) == r
  {
  }

  /** `get_bbox` keeps a rectangle only when it is more than 10 pixels wide and high. */
  predicate Accepts(r: Rect)
  {
    Abs(r.x2 - r.x1) > 10 && Abs(r.y2 - r.y1) > 10
  }

  /** The selection window; `begin` and `end` start as the null point (0, 0). */
  class Snip {
    var begin: Point
    var end: Point
    var bbox: Option<Rect>

    constructor ()
      ensures begin == Point(0, 0) && end == Point(0, 0) && bbox == None
    {
      begin, end, bbox := Point(0, 0), Point(0, 0), None;
    }

    /** A press starts a new selection: both corners at the cursor. */
    method MousePress(p: Point)
      modifies this
      ensures begin == p && end == p && bbox == old(bbox)
    {
      begin := p;
      end := begin;
    }

    /** Dragging moves only the second corner. */
    method MouseMove(p: Point)
      modifies this
      ensures end == p && begin == old(begin) && bbox == old(bbox)
    {
      end := p;
    }

    /** Releasing closes the window and stores the ordered corners of the selection. */
    method MouseRelease()
      modifies this
      ensures begin == old(begin) && end == old(end)
      ensures bbox == Some(Normalise(begin, end))
      ensures bbox.value.x1 <= bbox.value.x2 && bbox.value.y1 <= bbox.value.y2
    {
      var x1 := Min(begin.x, end.x);
      var y1 := Min(begin.y, end.y);
      var x2 := Max(begin.x, end.x);
      var y2 := Max(begin.y, end.y);
      bbox := Some(Rect(x1, y1, x2, y2));
    }
  }

  /**
   * The rectangle a window with corners begin and end stores once it has seen `events`:
   * the first release closes it; a window closed without a release stores nothing.
   */
  function Selection(begin: Point, end: Point, events: seq<MouseEvent>): Option<Rect>
    decreases |events|
  {
    if events == [] then None
    else match events[0]
      case Pressed(p) => Selection(p, p, events[1..])
      case Moved(p) => Selection(begin, p, events[1..])
      case Released => Some(Normalise(begin, end))
  }

  /** The rectangle one window session stores, starting from a fresh window. */
  function SessionBox(events: seq<MouseEvent>): Option<Rect>
  {
    Selection(Point(0, 0), Point(0, 0), events)
  }

  /** Whatever the user does, a stored rectangle has ordered corners. */
  lemma {:induction false} SelectionOrdered(begin: Point, end: Point, events: seq<MouseEvent>)
    ensures var r := Selection(begin, end, events);
      r.Some? ==> r.value.x1 <= r.value.x2 && r.value.y1 <= r.value.y2
    decreases |events|
  {
    if events != [] {
      match events[0]
      case Pressed(p) => SelectionOrdered(p, p, events[1..]);
      case Moved(p) => SelectionOrdered(begin, p, events[1..]);
      case Released =>
    }
  }

  /** A session whose rectangle `get_bbox` refuses. */
  predicate TooSmall(events: seq<MouseEvent>)
  {
    SessionBox(events).Some? && !Accepts(SessionBox(events).value)
  }

  /**
   * Show a fresh window and deliver `events` to it until a release closes it; returns the
   * rectangle the window stored.
   */
  method RunSession(events: seq<MouseEvent>) returns (bbox: Option<Rect>)
    ensures bbox == SessionBox(events)
  {
    var window := new Snip();
    var i, open := 0, true;
    while i < |events| && open
      invariant i <= |events|
      invariant open ==> window.bbox == None && SessionBox(events) == Selection(window.begin, window.end, events[i..])
      invariant !open ==> window.bbox == SessionBox(events)
      decreases |events| - i
    {
      assert events[i..][1..] == events[i + 1..];
      match events[i] {
        case Pressed(p) => window.MousePress(p);
        case Moved(p) => window.MouseMove(p);
        case Released =>
          window.MouseRelease();
          open := false;
      }
      i := i + 1;
    }
    bbox := window.bbox;
  }

  /** How `get_bbox` ends. */
  datatype Outcome =
    | Box(rect: Rect)  // a rectangle big enough was selected and is returned
    | Unselected       // a window closed without a release: indexing its empty bbox raises
    | Retrying         // every session so far was too small: the source keeps asking

  /**
   * `get_bbox`: one window session after another (each element of `sessions` is what the
   * user does in one window) until one stores a rectangle larger than 10 by 10 pixels.
   * `rejected` counts the sessions refused as too small.
   */
  method GetBbox(sessions: seq<seq<MouseEvent>>) returns (result: Outcome, rejected: nat)
    ensures rejected <= |sessions|
    ensures forall j :: 0 <= j < rejected ==> TooSmall(sessions[j])
    ensures result.Retrying? <==> rejected == |sessions|
    ensures result.Box? ==> SessionBox(sessions[rejected]) == Some(result.rect) && Accepts(result.rect)
    ensures result.Unselected? ==> SessionBox(sessions[rejected]) == None
  {
    rejected := 0;
    while rejected < |sessions|
      invariant rejected <= |sessions|
      invariant forall j :: 0 <= j < rejected ==> TooSmall(sessions[j])
    {
      var bbox := RunSession(sessions[rejected]);
      if bbox.None? {
        return Unselected, rejected;
      }
      var r := bbox.value;
      if Abs(r.x2 - r.x1) > 10 && Abs(r.y2 - r.y1) > 10 {
        return Box(r), rejected;
      }
      // "Bbox was too small!": reopen the window
      rejected := rejected + 1;
    }
    result := Retrying;
  }

  /** A returned rectangle is never too small, and its corners are ordered. */
  lemma BoxIsLargeAndOrdered(sessions: seq<seq<MouseEvent>>, k: nat)
    requires k < |sessions| && SessionBox(sessions[k]).Some? && Accepts(SessionBox(sessions[k]).value)
    ensures var r := SessionBox(sessions[k]).value;
      r.x2 - r.x1 > 10 && r.y2 - r.y1 > 10
  {
    SelectionOrdered(Point(0, 0), Point(0, 0), sessions[k]);
  }
}
