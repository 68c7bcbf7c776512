/**
 * The palette recorder of `setup`: every released left click stores the colour under the
 * cursor against the click position unless that colour is already recorded; a released
 * right click ends recording once at least one colour is known.
 */
module Recorder {
  import opened Wrappers
  import opened Geometry
  import opened Palette

  datatype Button = Left | Right | Middle

  /**
   * One click callback of the mouse listener: where, which button, pressed or released,
   * and the colour of the screenshot pixel at that position.
   */
  datatype ClickEvent = ClickEvent(pos: Point, button: Button, pressed: bool, pixel: Rgb)

  predicate IsLeftRelease(e: ClickEvent)
  {
    !e.pressed && e.button == Left
  }

  predicate IsRightRelease(e: ClickEvent)
  {
    !e.pressed && e.button == Right
  }

  /**
   * The palette after a left click on colour c at pos: a colour already present is
   * rejected, a new one is added at the end of the insertion order.
   */
  function Recorded(palette: seq<Entry>, c: Rgb, pos: Point): (r: seq<Entry>)
    ensures DistinctColours(palette) ==> DistinctColours(r)
    ensures Lookup(r, c) == if Has(palette, c) then Lookup(palette, c) else Some(pos)
    ensures forall d :: d != c ==> Lookup(r, d) == Lookup(palette, d)
    ensures palette <= r && |r| <= |palette| + 1
  {
    if Has(palette, c) then palette
    else
      var r := palette + [Entry(c, pos)];
      forall d | d != c ensures Lookup(r, d) == Lookup(palette, d) {
        IndexOfAppend(palette, Entry(c, pos), d);
      }
      IndexOfAppend(palette, Entry(c, pos), c);
      r
  }

  /** Appending an entry leaves the first index of every colour present before unchanged. */
  lemma IndexOfAppend(palette: seq<Entry>, e: Entry, d: Rgb)
    ensures IndexOf(palette + [e], d) ==
      if IndexOf(palette, d) < |palette| then IndexOf(palette, d)
      else if e.colour == d then |palette| else |palette| + 1
  {
    var i, n := IndexOf(palette + [e], d), IndexOf(palette, d);
    assert forall j :: 0 <= j < |palette| ==> (palette + [e])[j] == palette[j];
    if n < |palette| {
      assert (palette + [e])[n].colour == d;
    } else if e.colour == d {
      assert (palette + [e])[|palette|].colour == d;
    } else {
      assert forall j :: 0 <= j < |palette| + 1 ==> (palette + [e])[j].colour != d;
    }
  }

  /** Recording the same colour twice is the same as recording it once. */
  lemma RecordedIdempotent(palette: seq<Entry>, c: Rgb, pos: Point, pos': Point)
    ensures Recorded(Recorded(palette, c, pos), c, pos') == Recorded(palette, c, pos)
  {
  }

  /**
   * The duplicate scan of the click handler: walk over every key and clear `valid`
   * when one equals the clicked colour.
   */
  method IsNewColour(palette: seq<Entry>, c: Rgb) returns (valid: bool)
    ensures valid <==> !Has(palette, c)
  {
    valid := true;
    for i := 0 to |palette|
      invariant valid <==> forall j :: 0 <= j < i ==> palette[j].colour != c
    {
      if palette[i].colour == c {
        valid := false;
      }
    }
  }

  /** The state the click handler updates: the palette dictionary of the enclosing `setup`. */
  class PaletteRecorder {
    var palette: seq<Entry>

    ghost predicate Valid()
      reads this
    {
      DistinctColours(palette)
    }

    constructor ()
      ensures Valid() && palette == []
    {
      palette := [];
    }

    /**
     * `_on_click`: a released left click records `e.pixel` at `e.pos`; a released right
     * click asks to stop, which is granted only when the palette is not empty.
     */
    method OnClick(e: ClickEvent) returns (finish: bool)
      requires Valid()
      modifies this
      ensures Valid()
      ensures palette == if IsLeftRelease(e) then Recorded(old(palette), e.pixel, e.pos) else old(palette)
      ensures finish <==> IsRightRelease(e) && |palette| > 0
    {
      finish := false;
      if IsLeftRelease(e) {
        var valid := IsNewColour(palette, e.pixel);
        if valid {
          palette := palette + [Entry(e.pixel, e.pos)];
        }
      } else if IsRightRelease(e) {
        if |palette| != 0 {
          finish := true;
        }
      }
    }
  }

  /** The palette after the handler has seen all of `events`. */
  function Recording(events: seq<ClickEvent>): seq<Entry>
  {
    if events == [] then []
    else
      var last := events[|events| - 1];
      var p := Recording(events[..|events| - 1]);
      if IsLeftRelease(last) then Recorded(p, last.pixel, last.pos) else p
  }

  /** Recording ends at event j: a right-button release while the palette is not empty. */
  predicate FinishesAt(events: seq<ClickEvent>, j: nat)
    requires j < |events|
  {
    IsRightRelease(events[j]) && |Recording(events[..j])| > 0
  }

  /** Position of the first left-button release on colour c. */
  function FirstClick(events: seq<ClickEvent>, c: Rgb): Option<Point>
  {
    if events == [] then None
    else if IsLeftRelease(events[0]) && events[0].pixel == c then Some(events[0].pos)
    else FirstClick(events[1..], c)
  }

  lemma {:induction false} FirstClickSnoc(events: seq<ClickEvent>, e: ClickEvent, c: Rgb)
    ensures FirstClick(events + [e], c) ==
      if FirstClick(events, c).Some? then FirstClick(events, c)
      else if IsLeftRelease(e) && e.pixel == c then Some(e.pos) else None
  {
    if events != [] {
      assert (events + [e])[1..] == events[1..] + [e];
      FirstClickSnoc(events[1..], e, c);
    }
  }

  /** Every recorded palette has unique colours. */
  lemma {:induction false} RecordingDistinct(events: seq<ClickEvent>)
    ensures DistinctColours(Recording(events))
  {
    if events != [] {
      RecordingDistinct(events[..|events| - 1]);
    }
  }

  /**
   * The first click wins: the position stored for a colour is where it was first
   * clicked, and a colour is in the palette exactly when some left click sampled it.
   */
  lemma {:induction false} RecordingLookup(events: seq<ClickEvent>, c: Rgb)
    ensures Lookup(Recording(events), c) == FirstClick(events, c)
  {
    if events != [] {
      var init, last := events[..|events| - 1], events[|events| - 1];
      assert events == init + [last];
      RecordingLookup(init, c);
      FirstClickSnoc(init, last, c);
    }
  }

  /**
   * The mouse listener running `_on_click` on each event until it asks to stop.
   * Returns the palette, how many events were consumed, and whether recording finished
   * (running out of events stands for the user never finishing).
   */
  method RunRecorder(events: seq<ClickEvent>) returns (palette: seq<Entry>, consumed: nat, finished: bool)
    ensures consumed <= |events| && palette == Recording(events[..consumed])
    ensures DistinctColours(palette)
    ensures finished ==> consumed > 0 && FinishesAt(events, consumed - 1) && |palette| > 0
    ensures !finished ==> consumed == |events|
    ensures forall j :: 0 <= j < consumed && (j < consumed - 1 || !finished) ==> !FinishesAt(events, j)
  {
    var recorder := new PaletteRecorder();
    consumed, finished := 0, false;
    while consumed < |events| && !finished
      invariant consumed <= |events| && recorder.Valid()
      invariant recorder.palette == Recording(events[..consumed])
      invariant finished ==> consumed > 0 && FinishesAt(events, consumed - 1) && |recorder.palette| > 0
      invariant forall j :: 0 <= j < consumed && (j < consumed - 1 || !finished) ==> !FinishesAt(events, j)
    {
      var e := events[consumed];
      assert events[..consumed + 1][..consumed] == events[..consumed];
      finished := recorder.OnClick(e);
      consumed := consumed + 1;
    }
    palette := recorder.palette;
  }
}
