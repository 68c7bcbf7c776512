# Auto-draw, modelled in Dafny

Auto-draw redraws a picture in a web paint program by driving the mouse. The model covers
four parts of it:

- **Region selection.** `get_bbox` opens a translucent full-screen window and the user drags
  out the canvas rectangle. A rectangle of 10 pixels or less in either direction is refused
  and the window reopens (`screen.py`).
- **Palette recording.** Each released left click stores the colour under the cursor
  against the click position, unless that colour is already stored. A released right click
  ends recording, but only once the palette holds at least one colour (`_on_click` in
  `main.py`).
- **Menu choice.** `list_choice` is the numbered-menu prompt.
- **Drawing.** The pixels on the stride grid of the resized image are first replaced, in
  place, by their nearest palette colour. The distance is the sum of absolute channel
  differences, and on a tie the first palette entry wins. The image is then printed row by
  row:
  - select the colour of the row's first pixel;
  - at every sampled column, move to the pixel's canvas position and press the button;
  - where the next sampled pixel has another colour, release, click that colour in the
    palette and carry on;
  - release at the end of each row, and once more after the last row.

  A destination more than 5 pixels beyond the canvas' right or bottom edge cancels the draw.

The modules follow that structure:

- `Geometry`: points, rectangles and the `range(0, n, stride)` grid.
- `Palette`: colours, the palette as an insertion-ordered dictionary, and the nearest-colour
  search.
- `Recorder`: the click handler and the listener loop.
- `Choice`: the menu prompt.
- `Drawing`: the quantise loop on a 2-D pixel array, and the click path as a list of mouse
  events.
- `ClickPath`: properties of the click path (cancellation, how it ends, how many clicks).
- `Painting`: a reference semantics of the paint program. It states what replaying the
  click path paints.
- `Snipping`: the selection window as a class with `begin`, `end` and `bbox` fields, and
  the `get_bbox` retry loop.

## Model

| member | source | states |
|---|---|---|
| Geometry.OnGrid | main.py:234-235 | defines the values `range(0, n, stride)` produces: 0, stride, 2·stride, … (no ensures; `Geometry.OnGridApart` proves two distinct ones are a stride apart) |
| Palette.Distance | main.py:65 | defines the distance between two colours as the sum of the absolute channel differences (no ensures; `Palette.DistanceZero` states its property) |
| Palette.Select | main.py:249 | defines the dictionary lookup `config['palette'][str(colour)]` that the drawing loop makes on lines 249 and 276, with (0, 0) standing for the KeyError of a missing key (no ensures, so that the click-path definitions unfold cheaply; `Palette.SelectLookup` ties it to `Palette.Lookup`) |
| Palette.DistanceZero | main.py:65 | the summed absolute channel difference is zero exactly between equal colours |
| Palette.HasMember | main.py:106-107 | a colour is a key of the palette exactly when some entry holds it |
| Palette.Lookup | main.py:249 | the dictionary lookup finds a position exactly when the colour is a key, and the position found is the one stored with that colour |
| Palette.SelectLookup | main.py:276 | for a colour that is a key, the lookup the drawing loop makes returns the stored position |
| Palette.ColourAtLookup | main.py:249-253 | with distinct palette positions, clicking the position stored for a colour selects that colour again |
| Palette.NearestIndex | main.py:61-68 | the chosen entry is at least as close as every entry and strictly closer than every earlier one (`index(min(...))` finds the first minimum) |
| Palette.Nearest | main.py:48-75 | the returned colour is in the palette and no palette colour is closer to the input |
| Palette.NearestIndexUnique | main.py:68 | those two properties determine the chosen index uniquely |
| Palette.NearestOfMember | main.py:48-75 | a colour already in the palette is its own nearest colour |
| Palette.NearestFirstOnTie | main.py:68 | on a tie, no palette entry before the returned one is equally close |
| Palette.NearestColour | main.py:48-75 | the method (distance list, `min` loop, `index` loop) returns exactly the first nearest palette colour |
| Recorder.Recorded | main.py:103-113 | a left click leaves the palette unchanged if the colour is known, otherwise appends it at the click position; other colours keep their positions and keys stay unique |
| Recorder.RecordedIdempotent | main.py:106-113 | clicking the same colour twice stores the same palette as clicking it once |
| Recorder.IsNewColour | main.py:103-109 | the duplicate scan reports valid exactly when the colour is not yet a key |
| Recorder.Recording | main.py:91-121 | defines the palette after the click handler has seen a list of events, one `Recorder.Recorded` step per released left click (no ensures; `Recorder.RecordingLookup` and `Recorder.RecordingDistinct` state its properties) |
| Recorder.FinishesAt | main.py:116-121 | defines when the handler ends recording: a released right click while the palette recorded so far is not empty (no ensures; used by `Recorder.RunRecorder`) |
| Recorder.PaletteRecorder.constructor | main.py:82 | recording starts from an empty palette |
| Recorder.PaletteRecorder.OnClick | main.py:91-121 | a released left click records the colour as above, any other event leaves the palette alone, and the handler asks to stop exactly on a released right click with a non-empty palette |
| Recorder.RecordingDistinct | main.py:91-121 | every recorded palette has unique colours |
| Recorder.RecordingLookup | main.py:103-113 | the position stored for a colour is where it was first left-clicked, and it is stored exactly when some left click sampled it |
| Recorder.RunRecorder | main.py:91-127 | the listener stops at the first right release that finds a non-empty palette, and returns the palette recorded from the events before it |
| Choice.Accept | main.py:38-45 | a line is accepted exactly when it parses to an integer in 1..count, and the 0-based index one less is returned |
| Choice.ListChoice | main.py:36-45 | the prompt returns the answer to the first acceptable line and rejects every line before it |
| Drawing.Sampled | main.py:234-235 | defines the sampled pixels: both coordinates on the stride grid (no ensures) |
| Drawing.Dest | main.py:259 | defines the screen position of image pixel (x, y): the pixel offset by the canvas' top-left corner (no ensures) |
| Drawing.OutOfBounds | main.py:261 | defines the cancel test: more than 5 pixels beyond the canvas' right edge or bottom edge; the left and top edges are never compared (no ensures; `ClickPath.PathAborted` states when it fires) |
| Drawing.Reselect | main.py:267-279 | defines the colour change after column x: release, move to the next sampled pixel's palette position and click, when there is a next sampled column and its colour differs, otherwise nothing (no ensures; `ClickPath.ColumnRule` states the rule) |
| Drawing.Columns | main.py:256-280 | defines the events of a row from sampled column x on: per column, the move, then either the cancel or the press and the colour change (no ensures; the reference the `Drawing.EmitRow` loop and the ClickPath and Painting lemmas are stated against) |
| Drawing.SelectFirst | main.py:249-253 | defines the colour selection at the start of a row: move to the palette position of pixel (0, y)'s colour, press, release (no ensures) |
| Drawing.Row | main.py:246-283 | defines the events of row y: the colour selection, the columns, and the release at the end of the row unless the columns cancelled (no ensures; `Drawing.EmitRow` is proved equal to it) |
| Drawing.Rows | main.py:246-285 | defines the events from sampled row y on: each row in turn until one cancels, and the final release when none does (no ensures; `Drawing.EmitPath` and `Drawing.Draw` are proved equal to it) |
| Drawing.QuantiseColumn | main.py:235-237 | the inner loop for sampled column i: every sampled pixel of the column becomes its nearest palette colour and no other pixel changes |
| Drawing.Quantise | main.py:233-237 | every pixel on the stride grid becomes its nearest palette colour, every other pixel keeps its colour, and afterwards every sampled pixel is a palette key |
| Drawing.EmitColumn | main.py:256-280 | one column: move to the pixel's destination; stop exactly when it is out of bounds; otherwise press, and on a colour change release, move to the next colour and click |
| Drawing.EmitRow | main.py:246-283 | one row: select the first pixel's colour, run the columns, and release at the end unless cancelled |
| Drawing.EmitPath | main.py:243-285 | the printing loop emits exactly the event list of the row-by-row path, stopping at the first cancel and otherwise ending with the final release |
| Drawing.Draw | main.py:231-285 | quantise in place, then emit the click path of the quantised image |
| ClickPath.ColumnsAborted | main.py:256-263 | a row is cancelled from column x on exactly when some sampled column at or after x lands out of bounds |
| ClickPath.RowsAborted | main.py:246-263 | the draw is cancelled from row y on exactly when some sampled pixel at or below row y lands out of bounds |
| ClickPath.PathAborted | main.py:246-285 | the whole draw is cancelled exactly when some sampled pixel lands more than 5 pixels past the canvas' right or bottom edge |
| ClickPath.ColumnRule | main.py:259-280 | an in-bounds column moves and presses, then releases and clicks the next colour exactly when there is a next sampled column with a different colour, and the remaining columns follow |
| ClickPath.ColumnsEnd | main.py:259-263 | a cancelled row ends with the out-of-bounds move, and no press follows it |
| ClickPath.RowsEnd | main.py:246-285 | every path ends either with the cancelling move or with a release of the button |
| ClickPath.ColumnsCount | main.py:264-280 | columns that are not cancelled click and release once per colour change between adjacent sampled pixels |
| ClickPath.RowCount | main.py:249-283 | a row that is not cancelled clicks once per colour change and releases twice more (colour selection and row end) |
| Painting.SelectPicks | main.py:249-253 | with distinct palette positions, clicking the position looked up for a palette colour picks that colour |
| Painting.ColumnPaint | main.py:259-280 | one in-bounds column paints the pixel's colour at its destination and nothing else, and after a colour change the brush holds the next pixel's colour |
| Painting.ColumnsPaint | main.py:256-280 | the columns from x on paint every sampled pixel of the row at its destination and leave points left of x and in other rows alone |
| Painting.RowPaint | main.py:246-283 | a row that is not cancelled paints all its sampled pixels, leaves other rows alone and ends with the button up |
| Painting.RowsPaint | main.py:246-285 | the rows from y on paint every sampled pixel of them and leave rows above y alone |
| Painting.PathPaintsImage | main.py:246-285 | a draw that is not cancelled paints every sampled pixel's quantised colour at that pixel's screen position |
| Snipping.Normalise | screen.py:50-55 | the stored rectangle has ordered corners and is the smallest rectangle containing both drag corners |
| Snipping.NormaliseSymmetric | screen.py:50-55 | dragging in either direction selects the same rectangle |
| Snipping.NormaliseCorners | screen.py:50-55 | dragging between two opposite corners of an ordered rectangle selects exactly that rectangle |
| Snipping.Accepts | screen.py:74 | defines the size test of `get_bbox`: more than 10 pixels apart in both directions (no ensures; `Snipping.BoxIsLargeAndOrdered` states what it guarantees) |
| Snipping.Snip.constructor | screen.py:15-24 | a new window has both corners at the null point and no stored rectangle |
| Snipping.Snip.MousePress | screen.py:38-40 | a press puts both corners at the cursor |
| Snipping.Snip.MouseMove | screen.py:43-44 | a move changes only the second corner |
| Snipping.Snip.MouseRelease | screen.py:47-55 | a release stores the ordered rectangle of the two corners and leaves the corners alone |
| Snipping.Selection | screen.py:38-55 | defines the rectangle a window with the given corners stores after a list of mouse events: a press resets both corners, a move sets the second, the first release stores the ordered rectangle, and no release stores nothing (no ensures; `Snipping.RunSession` is proved equal to it) |
| Snipping.SessionBox | screen.py:66-70 | defines the rectangle one window session stores, starting from a fresh window with both corners at (0, 0) (no ensures) |
| Snipping.SelectionOrdered | screen.py:47-55 | whatever the user does, a stored rectangle has ordered corners |
| Snipping.RunSession | screen.py:66-70 | one window session stores the rectangle of the first release, or nothing when the window is closed without one |
| Snipping.GetBbox | screen.py:58-84 | windows reopen while the rectangle is 10 pixels or less in some direction; the rectangle returned is the first more than 10 pixels in both directions, and every earlier one was refused |
| Snipping.BoxIsLargeAndOrdered | screen.py:72-75 | a returned rectangle spans more than 10 pixels in each direction, left to right and top to bottom |

## Left out

- The Qt and tk windows, the drawing of the selection rectangle (`paintEvent`), the screen size, pynput's listener and mouse controller, `ImageGrab` screenshots, and time delays. The model takes mouse events and sampled pixel colours as inputs, and emits mouse actions as a list of events.
- Opening, converting, resizing and showing the image, including the float scale factor. The model starts from the resized pixel array.
- The JSON config file, the directory walk, filename sanitisation, the stride table, the menu loop and the kill switch (`killswitch.py`). `killswitch.py` is not part of this model.
- Palette keys are `str((r, g, b))` strings that are read back with `eval`. The model keys the palette by the colour itself, which is the same mapping because the string form is injective.
- Colour channels and coordinates are unbounded integers. Nothing in the modelled code depends on their width.
- The paint program in `Painting` is an assumption about the target website, not part of the source: a click on a palette position picks that colour, a press elsewhere dabs the brush colour, and a move with the button held dabs the point moved to. `Painting.PathPaintsImage` also assumes that palette positions are distinct and lie off the canvas.
- Drawing.EmitRow: a palette lookup of a colour that is not a key returns (0, 0), where the source raises KeyError. `Drawing.Draw` quantises first, so every lookup it makes succeeds (`Drawing.Quantised`).
- Drawing.EmitColumn: has the same (0, 0) stand-in for KeyError as EmitRow.
- Drawing.EmitPath: requires a non-zero image width unless the image has no rows. The source reads `pixels[0, y]` and would raise IndexError.
- Drawing.Draw: requires a non-empty palette when the image has a row, and the same width condition as EmitPath. Together these demand a palette exactly when some pixel is sampled. In that case the source raises ValueError from `min` of an empty list (main.py:236 via main.py:68). `Drawing.Quantise` and `Drawing.QuantiseColumn` demand a palette only when a pixel is sampled, and an empty image passes through them unchanged, as it does in the source.
- Palette.NearestColour: requires a non-empty palette. The source raises ValueError from `min` of an empty list.
- Choice.ListChoice: a finite list of input lines stands for the lines the user has typed so far. When none of them is acceptable the result is `None`: the source would wait for another line, and once input ends, `input()` raises EOFError, which `except ValueError` does not catch.
- Recorder.RunRecorder: a finite list of click events stands for the user. When the events run out without a finishing right click, `finished` is false, where the source keeps listening.
- Snipping.GetBbox: a finite list of window sessions stands for the user. When every session is refused the result is `Retrying`, where the source reopens the window forever. A window closed without a release gives `Unselected`, where the source raises TypeError indexing `None`.
- On cancellation the source returns right after the out-of-bounds move. The button may stay pressed, and the final release is not sent. The model emits exactly that. `Painting` states only what a draw that is not cancelled paints.
