# Grid selection core of dss-interactive

dss-interactive is a browser page that overlays a square grid on a large
image and lets teams claim grid cells by clicking them. This project models
the logic of `script.js` that decides what the grid looks like and how a
click changes it. It proves that logic against specification functions.

The model has five modules:

- `Grid` covers the zoom-to-density ladder (26, 52, 104 or 208 rows), the
  `SAFE_MAX_ROWS` cap, cell bounds and the half-open `pointInRect` test.
  Its lemmas show three things:
  - the cells of a grid tile the image, with no gaps and no overlaps;
  - every point of the image lies in exactly one cell;
  - a cell holds its own centre.
- `Colors` covers the integer part of `hexToRgba`:
  - `replace('#', '')`;
  - `parseInt(…, 16)`, with its optional sign, optional `0x` prefix and
    longest digit run, and NaN when the run is empty;
  - the signed 32-bit conversion that `>>` and `&` apply;
  - the three byte extractions.
- `Store` holds the list of team-tagged points (`selectedPoints`) and these
  operations on it:
  - the reverse scan of `lastPointInRect`;
  - the indices the click handler collects;
  - removal of the matching points;
  - the outcome of one select-mode click on a cell, stated as a function of
    the list before the click.
- `Teams` holds the team records, `teams.find` and the fill decision
  `drawGrid` makes for each cell.
- `App` holds the page's module-level state as the class `Annotator`. Its
  methods are the event handlers:
  - the cell click, Clear Team and Clear All;
  - the coords-mode map click;
  - the mode, team, colour and alpha controls;
  - the + Team and Rename buttons;
  - the redraw.

  The handlers keep the source's loops: the forward collection of
  `indicesInside`, the descending splices, the reverse scans and the nested
  redraw loop. Each loop is proved equal to a specification function:
  one in `Store` or `Teams`, or, for the redraw, `App.Annotator.CellViewAt`.

Coordinates, cell sizes, the zoom level and the alpha value are exact reals.
`Date.now()`, `map.getZoom()`, the clicked `latlng`, the prompt answers and
the control values become method parameters. The image size becomes a
constructor parameter.

The `SAFE_MAX_ROWS` cap at script.js:90 never fires. The largest ladder
value, 208, equals the cap. `Grid.GridRows` proves that the capped value
always equals the ladder value.

## Model

| member | source | states |
|---|---|---|
| Grid.RowsForZoom | script.js:66-71 | The density is always one of 26, 52, 104 or 208 rows. |
| Grid.RowsForZoomLadder | script.js:66-71 | Each threshold (0, 1, 2) belongs to the coarser step, and each step doubles the density. |
| Grid.RowsForZoomMonotonic | script.js:66-71 | Zooming in never gives fewer rows. |
| Grid.GridRows | script.js:89-90 | The row count `drawGrid` uses lies between 26 and `SAFE_MAX_ROWS` and equals the ladder value, so the cap never changes it. |
| Grid.PointInRect | script.js:73-75 | A cell that contains a point has positive height and width. |
| Grid.PointInRectHalfOpen | script.js:73-75 | A non-empty cell contains every point of its top and left edges, its top-left corner included, but no point of its bottom or right edge. |
| Grid.CellSize | script.js:92-93 | `rows` cells of this size exactly span the image extent, and each is positive when the extent is. |
| Grid.CellBounds | script.js:96-101 | Every cell is one cell-height tall and one cell-width wide. |
| Grid.CentreInCell | script.js:142 | The centre a claim stores lies inside the clicked cell. |
| Grid.CellWithinImage | script.js:96-101 | Every cell of the grid lies inside the image. |
| Grid.CellsAbut | script.js:96-101 | A cell's bottom edge is the top edge of the cell below it, and its right edge is the left edge of the cell to its right. |
| Grid.CellUnique | script.js:96-101 | A point lies in at most one cell of a grid. |
| Grid.CellOfPoint | script.js:92-101 | Every point of the image lies in the cell whose row and column are its coordinates divided by the cell size, rounded down. |
| Colors.FirstHash | script.js:61 | Returns the position of the first `#` in a string that has one. |
| Colors.StripFirstHash | script.js:61 | A string without `#` is unchanged, and otherwise exactly one character goes. |
| Colors.StripFirstHashSpec | script.js:61 | The character removed is the first `#`, and the text before and after it is kept. |
| Colors.HexRun | script.js:61 | `parseInt` reads the longest prefix of hex digits: all of it is digits, and the next character is not one. |
| Colors.DigitsValue | script.js:61 | A run of n hex digits has a value below 16^n. |
| Colors.ParseIntHex | script.js:61 | The result is NaN exactly when no digit follows the optional sign and `0x` prefix, and it is non-negative unless a minus sign is present. |
| Colors.DropSign | script.js:61 | `parseInt` skips at most one leading `+` or `-` and keeps the rest of the text. |
| Colors.DropHexPrefix | script.js:61 | `parseInt` with radix 16 skips a leading `0x` or `0X` and nothing else, and keeps the rest of the text. |
| Colors.ToInt32 | script.js:62 | The 32-bit conversion lands in the signed 32-bit range, is the identity on that range, and maps NaN to 0. |
| Colors.ToInt32Congruent | script.js:62 | The 32-bit conversion changes a value by a multiple of 2^32. |
| Colors.ToInt32KeepsLow24 | script.js:62 | The 32-bit conversion keeps the low 24 bits, and NaN gives 0. |
| Colors.ShiftRight | script.js:62 | `x >> k` is the integer quotient of x by 2^k, rounded toward minus infinity. |
| Colors.LowByte | script.js:62 | `x & 255` lies in 0..255 and differs from x by a multiple of 256. |
| Colors.ChannelsRecompose | script.js:62 | The bytes at shifts 16, 8 and 0 are the base-256 digits of the value modulo 2^24. |
| Colors.Channels | script.js:62 | Each extracted channel lies in 0..255. |
| Colors.ChannelsSpec | script.js:62 | The three channels recompose to the value's low 24 bits. |
| Colors.HexToRgb | script.js:60-64 | Each channel of any colour string lies in 0..255. |
| Colors.HexToRgbSpec | script.js:60-64 | The channels spell the low 24 bits of the parsed value, and an unparsable string gives black. |
| Colors.BlueReadsAsB | script.js:60-64 | The CSS name `blue` parses as the hex digit `b` and gives the channels (0, 0, 11). |
| Colors.ParseColour | script.js:61 | For a colour-picker value `#rrggbb`, `parseInt` reads all six digits. |
| Colors.ChannelsOfBytes | script.js:62 | The channels of a value built from three bytes are those bytes. |
| Colors.HexColourChannels | script.js:60-64 | `#rrggbb` yields the red, green and blue bytes that its digit pairs spell. |
| Store.NewestInCell | script.js:77-82 | No point is found exactly when no point lies in the cell. Otherwise the found point is in the cell, sits at the returned index, and no later point is in the cell. |
| Store.IndicesWhere | script.js:129-132 | The list of indices is no longer than the point list. |
| Store.IndicesWhereSpec | script.js:129-132 | `indicesInside` holds exactly the indices of the points inside the cell, each once, in increasing order. |
| Store.IndicesWhereSound | script.js:129-132 | Every collected index is in range, and its point is inside the cell. |
| Store.IndicesWhereSorted | script.js:129-132 | The collected indices increase strictly. |
| Store.IndicesWhereComplete | script.js:129-132 | Every index whose point is inside the cell is collected. |
| Store.RemoveMatching | script.js:138 | Removal never lengthens the list. |
| Store.RemoveMatchingCount | script.js:138 | The list shrinks by exactly the number of collected indices. |
| Store.RemoveMatchingMembers | script.js:295-297 | A point survives exactly when it was in the list and does not match. |
| Store.RemoveMatchingKeepsOrder | script.js:295-297 | The k-th survivor is the point at the k-th non-matching index, so the survivors keep their order. |
| Store.RemoveMatchingAppend | script.js:138 | Removal distributes over concatenation. |
| Store.RemoveMatchingNone | script.js:138 | A list with no matching point is left unchanged. |
| Store.RemoveMatchingIdempotent | script.js:292-299 | A second removal with the same criterion changes nothing, so pressing Clear Team twice is the same as pressing it once. |
| Store.SpliceStep | script.js:138 | Splicing out the highest remaining collected index extends the filtered suffix down to that index and leaves the lower collected indices intact. |
| Store.ScanStep | script.js:295-297 | One step of the descending Clear Team scan extends the filtered suffix by one position. |
| Store.Centre | script.js:142 | The point a claim stores carries the clicking team and the click time, and lies inside the clicked cell. |
| Store.OwnedBy | script.js:136 | When the click deselects, some point of the clicking team lies in the cell. |
| Store.OwnedBySpec | script.js:133-136 | The click deselects exactly when the cell's newest point belongs to the clicking team. |
| Store.ClickOutcome | script.js:133-143 | A deselect never lengthens the list. A claim leaves a non-empty list at most one longer, whose last point carries the team and the click time. |
| Store.ClickDeselects | script.js:136-138 | A deselect removes every point in the cell and nothing else: the list becomes the input with the cell's points removed, in order. No point of the cell remains, and the list shrinks by the number of points that were inside. |
| Store.ClickClaims | script.js:139-143 | A claim keeps the outside points in order and appends the team's centre point, so the list grows by one minus the number of points that were inside. |
| Store.ClickLeavesAtMostOne | script.js:129-143 | After a click the cell holds no point (deselect) or exactly the new centre (claim), and after a claim the team owns the cell. |
| Store.ClickTwiceClears | script.js:124-148 | A claim followed by a second click of the same team on the same cell empties the cell. The list is then the original list with that cell's points removed. |
| Teams.DefaultTeams | script.js:11-14 | The page starts with two teams whose ids differ. |
| Teams.FindTeam | script.js:115 | No team is found exactly when no team has the id. Otherwise the found team has the id and is the first such team. |
| Teams.FindAppended | script.js:278-279 | A team appended under a fresh id is the one found under that id. |
| Teams.CellFill | script.js:104-120 | A cell with no point inside is transparent, and a tinted cell uses the selection alpha. Its colour is stated by `Teams.CellFillColour`. |
| Teams.CellFillSpec | script.js:104-120 | A cell is tinted exactly when it has a newest inside point and that point's team is listed. |
| Teams.CellFillColour | script.js:113-117 | A cell whose newest inside point belongs to a listed team is tinted with the colour of the first team listed under that id, at the selection alpha. |
| Teams.RecolourShows | script.js:263-267 | After the colour input recolours a team, every cell whose newest point is that team's shows the new colour. |
| Teams.RecolourKeepsTint | script.js:263-267 | Recolouring a team does not change which cells are tinted. |
| Teams.ClickThenFill | script.js:104-148 | After a click by a listed team the cell is transparent (deselect) or shows that team's colour (claim). |
| App.Probed | script.js:164-165 | The probe goes first and the earlier entries follow in order. Below `MAX_COORDS` the history grows by one; at the cap its length stays the same and the oldest entry goes. |
| App.ProbedNewestFirst | script.js:161-167 | After any sequence of probes from a capped history, the history holds the earlier entries plus the probes, cut at 10. It starts with the probes, newest first, and continues with the earlier entries in their order. |
| App.ProbeAllLength | script.js:164-165 | Each probe lengthens the history by one until it holds 10 entries, and then the length stays at 10. |
| App.ProbeAllReversed | script.js:164 | The probes stand at the front of the history, the latest first. |
| App.ProbeAllKeepsHistory | script.js:164 | After the probes, the earlier entries follow in their original order. |
| App.ProbeAll | script.js:161-167 | The history never gains more entries than there were probes. |
| App.Annotator.constructor | script.js:17-25 | The starting state has no points, no probes, the default teams with the first one selected, alpha 0.5 and select mode. |
| App.Annotator.LastPointInRect | script.js:77-82 | The reverse scan returns the cell's newest point, or nothing when the cell is empty. |
| App.Annotator.IndicesInside | script.js:129-132 | The forward loop collects exactly the increasing indices of the points inside the cell. |
| App.Annotator.SpliceDescending | script.js:138 | Splicing the collected indices out from the highest down removes exactly the points inside the cell and keeps the rest in order. |
| App.Annotator.ClickCell | script.js:124-148 | In select mode the list becomes the click outcome (deselect or claim) and a redraw follows. In coords mode nothing changes. |
| App.Annotator.ClearTeam | script.js:292-299 | The descending scan removes exactly the current team's points, keeps the rest in order, and asks for a redraw. |
| App.Annotator.ClearAll | script.js:301-304 | The list becomes empty and a redraw follows. |
| App.Annotator.ProbeClick | script.js:161-167 | In coords mode the history becomes the capped, newest-first history. In select mode nothing changes. |
| App.Annotator.ToggleMode | script.js:248-249 | The mode flips between select and coords. |
| App.Annotator.SelectTeam | script.js:258-259 | The chosen team becomes the current team. |
| App.Annotator.SetTeamColor | script.js:263-267 | Only the current team's colour changes, and a redraw follows. |
| App.Annotator.SetAlpha | script.js:269-272 | The selection alpha becomes the slider value, and a redraw follows. |
| App.Annotator.AddTeam | script.js:274-283 | An empty name changes nothing. Otherwise the new team is appended, becomes current, and a redraw follows. |
| App.Annotator.RenameTeam | script.js:285-290 | An empty name changes nothing. Otherwise only the current team's name changes. |
| App.Annotator.CellViewAt | script.js:96-120 | A cell of the grid lies within the image, and a tinted cell uses the selection alpha. |
| App.Annotator.FillOf | script.js:104-120 | The fill `drawGrid` computes for a cell is the cell's specified fill. |
| App.Annotator.DrawRow | script.js:97-120 | One row of the redraw has `rows` cells, each with its grid bounds and specified fill. |
| App.Annotator.DrawGrid | script.js:85-101 | The redraw is empty before the image has a size. Otherwise it is a square grid at the zoom's density, and every cell has its bounds and fill. |
| App.GridCellClickTwice | script.js:124-148 | On any grid cell, claiming and then clicking again with the same team leaves the list with that cell's points removed. |

## Left out

- The Leaflet map is not modelled: its image overlay, layer group, rectangles, `fitBounds` and `stopPropagation`. A click reaches either the cell handler (select mode) or the map handler (coords mode), and the model encodes this split as the mode test in each handler.
- Loading the image is not modelled, and neither is the 6000 by 6000 placeholder size used before loading finishes. The constructor takes the loaded image's size. `drawGrid`'s guard for a zero size is kept.
- The controls' HTML, `populateTeams`, the Hide Grid and Coords panel buttons, `renderCoords`, `toFixed` and the error `alert` are presentation only.
- The `rgba(...)` text built by `hexToRgba` is not modelled. The model stops at the three channel values and the opacity.
- `Math.random` in the + Team colour prompt is not modelled. The colour and the id (`'team-' + Date.now()`) are parameters of `App.Annotator.AddTeam`.
- A cancelled name prompt (`null`) is modelled as the empty string, because `!name` treats the two alike.
- A cancelled colour prompt is not modelled. In the source the new team then stores `color: null`. On the next redraw that tints one of that team's cells, `hex.replace` at script.js:61 throws a TypeError, and the grid is left half drawn.
- Floating-point rounding is not modelled. Coordinates, cell sizes, the zoom level and the alpha value are exact reals, so rounding in `r * cellH` and in `left + cellW / 2` is not captured.
- `parseInt` has two behaviours the model omits. It skips leading white space, and it loses precision above 2^53. Only colour-picker values (`#rrggbb`) are sure to avoid both. A colour typed at the + Team prompt (script.js:277) can hit either, and then the model's colour can differ from the source's: `" #e53935"` is red in the source but black in the model.
- The model does not resolve CSS colour names, and neither does the source. A name such as `red` does not parse as hex, so `Colors.HexToRgbSpec` gives black for it. A name that starts with hex letters parses partly: `blue` reads as the digit `b`, so its cells are drawn as (0, 0, 11) (`Colors.BlueReadsAsB`).
- `App.Annotator.SelectTeam`: it requires that the index names a listed team, because the select element only offers those indices.
- The model states no property about points left behind by another grid density. Every point of the image lies in exactly one cell of any grid (`Grid.CellOfPoint`, `Grid.CellUnique`). The model does not prove that stored points lie inside the image: `App.Annotator.ClickCell` accepts any rectangle, while in the source every clicked cell comes from `drawGrid`'s loops.
- The `time` field of a point is stored but never read. The model only states that a claim stamps it with the click time (`Store.Centre`, `Store.ClickOutcome`).
