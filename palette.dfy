/**
 * Colours and the palette: a mapping from RGB triple to the screen position where a click
 * selects that colour, kept in insertion order (a Python dict iterates in insertion order).
 * The nearest-colour search of `get_nearest_colour` lives here.
 */
module Palette {
  import opened Wrappers
  import opened Geometry

  /** An opaque RGB pixel as PIL returns it after `convert('RGB')`. */
  datatype Rgb = Rgb(r: int, g: int, b: int)

  /** One palette entry: a colour and the screen position recorded for it. */
  datatype Entry = Entry(colour: Rgb, pos: Point)

  /** Sum of the absolute per-channel differences between two colours. */
  function Distance(p: Rgb, c: Rgb): nat
  {
    Abs(p.r - c.r) + Abs(p.g - c.g) + Abs(p.b - c.b)
  }

  /** The distance is zero exactly between equal colours. */
  lemma DistanceZero(p: Rgb, c: Rgb)
    ensures Distance(p, c) == 0 <==> p == c
  {
  }


  /** No colour is recorded twice: the palette's keys are unique. */
  predicate DistinctColours(palette: seq<Entry>)
  {
    forall i, j :: 0 <= i < j < |palette| ==> palette[i].colour != palette[j].colour
  }

  /** No two colours are selected by clicking the same position. */
  predicate DistinctPositions(palette: seq<Entry>)
  {
    forall i, j :: 0 <= i < j < |palette| ==> palette[i].pos != palette[j].pos
  }

  /** Index of the first entry whose colour is c, or |palette| when there is none. */
  function IndexOf(palette: seq<Entry>, c: Rgb): (i: nat)
    ensures i <= |palette|
    ensures i < |palette| ==> palette[i].colour == c
    ensures forall j :: 0 <= j < i ==> palette[j].colour != c
  {
    if palette == [] then 0
    else if palette[0].colour == c then 0
    else 1 + IndexOf(palette[1..], c)
  }

  /** Colour c is a key of the palette. */
  predicate Has(palette: seq<Entry>, c: Rgb)
  {
    IndexOf(palette, c) < |palette|
  }

  /** Has is membership among the palette's colours. */
  lemma HasMember(palette: seq<Entry>, c: Rgb)
    ensures Has(palette, c) <==> exists i :: 0 <= i < |palette| && palette[i].colour == c
  {
  }

  /** Index of the first entry recorded at position q, or |palette| when there is none. */
  function IndexAt(palette: seq<Entry>, q: Point): (i: nat)
    ensures i <= |palette|
    ensures i < |palette| ==> palette[i].pos == q
    ensures forall j :: 0 <= j < i ==> palette[j].pos != q
  {
    if palette == [] then 0
    else if palette[0].pos == q then 0
    else 1 + IndexAt(palette[1..], q)
  }

  /** The dictionary lookup `palette[c]`: the position recorded for colour c, if any. */
  function Lookup(palette: seq<Entry>, c: Rgb): (r: Option<Point>)
    ensures r.Some? <==> Has(palette, c)
    ensures r.Some? ==> Entry(c, r.value) in palette
  {
    var i := IndexOf(palette, c);
    if i < |palette| then Some(palette[i].pos) else None
  }

  /**
   * The position stored for colour c, read as `palette[c]` reads it, with (0, 0) where the
   * dictionary would raise KeyError. It is kept free of quantified contracts so that the
   * drawing specification can unfold it cheaply; SelectLookup ties it to Lookup.
   */
  function Select(palette: seq<Entry>, c: Rgb): Point
  {
    if palette == [] then Point(0, 0)
    else if palette[0].colour == c then palette[0].pos
    else Select(palette[1..], c)
  }

  /** For a colour that is a key, Select is the dictionary lookup. */
  lemma {:induction false} SelectLookup(palette: seq<Entry>, c: Rgb)
    requires Has(palette, c)
    ensures Lookup(palette, c) == Some(Select(palette, c))
  {
    if palette[0].colour != c {
      assert IndexOf(palette, c) == 1 + IndexOf(palette[1..], c);
      SelectLookup(palette[1..], c);
    }
  }

  /** The colour selected by clicking position q, if q is one of the palette's positions. */
  function ColourAt(palette: seq<Entry>, q: Point): (r: Option<Rgb>)
    ensures r.Some? <==> exists i :: 0 <= i < |palette| && palette[i].pos == q
    ensures r.Some? ==> Entry(r.value, q) in palette
  {
    var i := IndexAt(palette, q);
    if i < |palette| then Some(palette[i].colour) else None
  }

  /** Clicking the position recorded for a colour selects that colour again. */
  lemma ColourAtLookup(palette: seq<Entry>, c: Rgb)
    requires DistinctPositions(palette) && Has(palette, c)
    ensures ColourAt(palette, Lookup(palette, c).value) == Some(c)
  {
    var i := IndexOf(palette, c);
    assert IndexAt(palette, palette[i].pos) == i;
  }

  /**
   * Index of the entry `get_nearest_colour` picks: the smallest distance, and among equal
   * distances the earliest entry, since `list.index(min(...))` finds the first minimum.
   */
  function NearestIndex(palette: seq<Entry>, c: Rgb): (k: nat)
    requires |palette| > 0
    ensures k < |palette|
    ensures forall j :: 0 <= j < |palette| ==> Distance(palette[k].colour, c) <= Distance(palette[j].colour, c)
    ensures forall j :: 0 <= j < k ==> Distance(palette[k].colour, c) < Distance(palette[j].colour, c)
    decreases |palette|
  {
    if |palette| == 1 then 0
    else
      var k := NearestIndex(palette[..|palette| - 1], c);
      if Distance(palette[|palette| - 1].colour, c) < Distance(palette[k].colour, c) then |palette| - 1 else k
  }

  /** The palette colour `get_nearest_colour(c, palette)` returns. */
  function Nearest(palette: seq<Entry>, c: Rgb): (r: Rgb)
    requires |palette| > 0
    ensures Has(palette, r)
    ensures forall e :: e in palette ==> Distance(r, c) <= Distance(e.colour, c)
  {
    palette[NearestIndex(palette, c)].colour
  }

  /**
   * The two properties of NearestIndex determine it: an entry at least as close as every
   * other and strictly closer than every earlier one is the one `index(min(...))` finds.
   */
  lemma NearestIndexUnique(palette: seq<Entry>, c: Rgb, k: nat)
    requires k < |palette|
    requires forall j :: 0 <= j < |palette| ==> Distance(palette[k].colour, c) <= Distance(palette[j].colour, c)
    requires forall j :: 0 <= j < k ==> Distance(palette[k].colour, c) < Distance(palette[j].colour, c)
    ensures k == NearestIndex(palette, c)
  {
    var n := NearestIndex(palette, c);
    assert Distance(palette[n].colour, c) == Distance(palette[k].colour, c);
  }

  /** A colour already in the palette is its own nearest colour. */
  lemma NearestOfMember(palette: seq<Entry>, c: Rgb)
    requires Has(palette, c)
    ensures |palette| > 0 && Nearest(palette, c) == c
  {
    var i :| 0 <= i < |palette| && palette[i].colour == c;
    assert Distance(palette[i].colour, c) == 0;
    DistanceZero(Nearest(palette, c), c);
  }

  /** On a tie the earlier entry wins: no entry before the chosen one is as close. */
  lemma NearestFirstOnTie(palette: seq<Entry>, c: Rgb, j: nat)
    requires j < |palette|
    requires Distance(palette[j].colour, c) == Distance(Nearest(palette, c), c)
    ensures IndexOf(palette, Nearest(palette, c)) <= j
  {
    var k := NearestIndex(palette, c);
    assert IndexOf(palette, palette[k].colour) <= k;
  }

  /**
   * `get_nearest_colour`: the first loop builds the list of distances by appending, then
   * `min` finds the least distance and `index` the first entry that has it.
   */
  method NearestColour(colour: Rgb, palette: seq<Entry>) returns (nearest: Rgb)
    requires |palette| > 0
    ensures nearest == Nearest(palette, colour)
  {
    var comparisons: seq<nat> := [];
    var i := 0;
    while i < |palette|
      invariant i <= |palette| && |comparisons| == i
      invariant forall j :: 0 <= j < i ==> comparisons[j] == Distance(palette[j].colour, colour)
    {
      comparisons := comparisons + [Distance(palette[i].colour, colour)];
      i := i + 1;
    }
    // min(colour_comparisons)
    var least := comparisons[0];
    ghost var at := 0;
    i := 1;
    while i < |comparisons|
      invariant 1 <= i <= |comparisons|
      invariant 0 <= at < i && comparisons[at] == least
      invariant forall j :: 0 <= j < i ==> least <= comparisons[j]
    {
      if comparisons[i] < least {
        least, at := comparisons[i], i;
      }
      i := i + 1;
    }
    // colour_comparisons.index(least)
    var k := 0;
    while comparisons[k] != least
      invariant k <= at
      invariant forall j :: 0 <= j < k ==> comparisons[j] != least
      decreases at - k
    {
      k := k + 1;
    }
    NearestIndexUnique(palette, colour, k);
    nearest := palette[k].colour;
  }
}
