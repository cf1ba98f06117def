/** The page's module-level state and the handlers that change it: the
    cell click in select mode, Clear Team, Clear All, the map click in
    coords mode, the team and alpha controls, and the grid redraw. */
module App {
  import opened Options
  import opened Grid
  import opened Colors
  import opened Store
  import opened Teams

  /** Length of the coordinate-probe history. */
  const MaxCoords: int := 10
  const DefaultAlpha: real := 0.5

  /** Which handler a click reaches: the cell rectangles or the map. */
  datatype Mode = Select | Coords

  /** A probed position: Leaflet's lat is the pixel y, lng the pixel x. */
  datatype LatLng = LatLng(lat: real, lng: real)

  /** One rectangle of a redraw: its bounds and its fill. */
  datatype CellView = CellView(bounds: Rect, fill: Fill)

  /** The probe history after one more probe: the new entry first, then the
      previous entries, the oldest dropped when the list outgrows the cap
      (unshift, then one pop). */
  function Probed(history: seq<LatLng>, probe: LatLng): (h: seq<LatLng>)
    ensures |history| <= MaxCoords ==> |h| <= MaxCoords
    ensures 0 < |h| <= |history| + 1 && h[0] == probe
    ensures h[1..] == history[..|h| - 1]
    ensures |h| == if |history| < MaxCoords then |history| + 1 else |history|
  {
    var h := [probe] + history;
    if |h| > MaxCoords then h[..|h| - 1] else h
  }

  /** Probing keeps the newest entries, newest first: the probes in
      reverse order, then the earlier history, cut at the cap. */
  lemma ProbedNewestFirst(history: seq<LatLng>, probes: seq<LatLng>)
    requires |history| <= MaxCoords
    ensures |ProbeAll(history, probes)|
         == if |history| + |probes| < MaxCoords then |history| + |probes| else MaxCoords
    ensures forall i :: 0 <= i < |ProbeAll(history, probes)| && i < |probes| ==>
      ProbeAll(history, probes)[i] == probes[|probes| - 1 - i]
    ensures forall i :: |probes| <= i < |ProbeAll(history, probes)| ==>
      ProbeAll(history, probes)[i] == history[i - |probes|]
  {
    ProbeAllLength(history, probes);
    ProbeAllReversed(history, probes);
    ProbeAllKeepsHistory(history, probes);
  }

  /** The first entries are the probes, the latest first. */
  lemma {:induction false} ProbeAllReversed(history: seq<LatLng>, probes: seq<LatLng>)
    ensures forall i :: 0 <= i < |ProbeAll(history, probes)| && i < |probes| ==>
      ProbeAll(history, probes)[i] == probes[|probes| - 1 - i]
  {
    if probes != [] {
      var n := |probes| - 1;
      ProbeAllReversed(history, probes[..n]);
      var before := ProbeAll(history, probes[..n]);
      var h := Probed(before, probes[n]);
      forall i | 0 <= i < |h| && i < |probes| ensures h[i] == probes[|probes| - 1 - i] {
        if i > 0 {
          assert h[i] == h[1..][i - 1] == before[i - 1];
          assert probes[..n][|probes[..n]| - 1 - (i - 1)] == probes[|probes| - 1 - i];
        }
      }
    }
  }

  /** After the probes come the earlier entries, in their order. */
  lemma {:induction false} ProbeAllKeepsHistory(history: seq<LatLng>, probes: seq<LatLng>)
    ensures forall i :: |probes| <= i < |ProbeAll(history, probes)| ==>
      ProbeAll(history, probes)[i] == history[i - |probes|]
  {
    if probes != [] {
      var n := |probes| - 1;
      ProbeAllKeepsHistory(history, probes[..n]);
      var before := ProbeAll(history, probes[..n]);
      var h := Probed(before, probes[n]);
      forall i | |probes| <= i < |h| ensures h[i] == history[i - |probes|] {
        assert h[i] == h[1..][i - 1] == before[i - 1];
      }
    }
  }

  /** The history grows by one per probe until it reaches the cap, and
      then stays there. */
  lemma {:induction false} ProbeAllLength(history: seq<LatLng>, probes: seq<LatLng>)
    requires |history| <= MaxCoords
    ensures |ProbeAll(history, probes)|
         == if |history| + |probes| < MaxCoords then |history| + |probes| else MaxCoords
  {
    if probes != [] {
      ProbeAllLength(history, probes[..|probes| - 1]);
    }
  }

  /** The history after probing `probes` in order. */
  function ProbeAll(history: seq<LatLng>, probes: seq<LatLng>): (h: seq<LatLng>)
    ensures |h| <= |history| + |probes|
  {
    if probes == [] then history
    else Probed(ProbeAll(history, probes[..|probes| - 1]), probes[|probes| - 1])
  }

  class Annotator {
    var imageW: nat
    var imageH: nat
    var selectedPoints: seq<SelectedPoint>
    var teams: seq<Team>
    var currentTeamIndex: nat
    var selectionAlpha: real
    var currentMode: Mode
    var coordHistory: seq<LatLng>

    /** There is always a current team, and the probe history is capped. */
    ghost predicate Valid()
      reads this
    {
      currentTeamIndex < |teams| && |coordHistory| <= MaxCoords
    }

    /** The state once the image has loaded with the given size. */
    constructor (imageW: nat, imageH: nat)
      ensures Valid()
      ensures this.imageW == imageW && this.imageH == imageH
      ensures selectedPoints == [] && coordHistory == []
      ensures teams == DefaultTeams() && currentTeamIndex == 0
      ensures selectionAlpha == DefaultAlpha && currentMode == Select
    {
      this.imageW, this.imageH := imageW, imageH;
      selectedPoints, coordHistory := [], [];
      teams, currentTeamIndex := DefaultTeams(), 0;
      selectionAlpha, currentMode := DefaultAlpha, Select;
    }

    function CurrentTeamId(): string
      reads this
      requires Valid()
    {
      teams[currentTeamIndex].id
    }

    /** lastPointInRect: scans the list from the end for a point in the
        cell. */
    method LastPointInRect(cell: Rect) returns (last: Option<Found>)
      ensures last == NewestInCell(selectedPoints, cell)
    {
      var i := |selectedPoints| - 1;
      while i >= 0
        invariant -1 <= i < |selectedPoints|
        invariant forall j :: i < j < |selectedPoints| ==> !Matches(selectedPoints[j], InCell(cell))
      {
        if PointInRect(selectedPoints[i].x, selectedPoints[i].y, cell) {
          return Some(Found(i, selectedPoints[i]));
        }
        i := i - 1;
      }
      return None;
    }

    /** The click handler of one grid rectangle, whose bounds and cell size
        drawGrid captured. In select mode it collects the indices of the
        points inside, removes them all, appends the centre for the current
        team unless the cell's newest point was already the team's, and asks
        for a redraw; in coords mode it does nothing. */
    method ClickCell(cell: Rect, cellW: real, cellH: real, now: int) returns (redraw: bool)
      requires Valid()
      modifies this`selectedPoints
      ensures Valid()
      ensures redraw == (currentMode == Select)
      ensures selectedPoints == if currentMode == Select
        then ClickOutcome(old(selectedPoints), cell, cellW, cellH, CurrentTeamId(), now)
        else old(selectedPoints)
    {
      if currentMode != Select {
        return false;
      }
      ghost var kept := RemoveMatching(selectedPoints, InCell(cell));
      var indicesInside := IndicesInside(cell);
      var lastEntry := LastPointInRect(cell);
      var currentTeamId := teams[currentTeamIndex].id;
      ghost var owned := OwnedBy(selectedPoints, cell, currentTeamId);
      if lastEntry.Some? && lastEntry.value.pt.teamId == currentTeamId {
        assert owned;
        SpliceDescending(indicesInside, InCell(cell));
        assert selectedPoints == kept;
      } else {
        assert !owned;
        SpliceDescending(indicesInside, InCell(cell));
        var center := SelectedPoint(cell.left + cellW / 2.0, cell.top + cellH / 2.0, currentTeamId, now);
        assert center == Centre(cell, cellW, cellH, currentTeamId, now);
        selectedPoints := selectedPoints + [center];
        assert selectedPoints == kept + [center];
      }
      redraw := true;
    }

    /** The first loop of the click handler: the indices of the points
        inside the cell, in increasing order. */
    method IndicesInside(cell: Rect) returns (indicesInside: seq<nat>)
      ensures indicesInside == IndicesWhere(selectedPoints, InCell(cell), true)
    {
      indicesInside := [];
      var i := 0;
      while i < |selectedPoints|
        invariant 0 <= i <= |selectedPoints|
        invariant indicesInside == IndicesWhere(selectedPoints[..i], InCell(cell), true)
      {
        assert selectedPoints[..i + 1][..i] == selectedPoints[..i];
        if PointInRect(selectedPoints[i].x, selectedPoints[i].y, cell) {
          indicesInside := indicesInside + [i];
        }
        i := i + 1;
      }
      assert selectedPoints[..i] == selectedPoints;
    }

    /** `for (i = indices.length - 1; i >= 0; i--) selectedPoints.splice(indices[i], 1)`
        over the increasing indices of the matching points. */
    method SpliceDescending(indices: seq<nat>, ghost c: Criterion)
      requires indices == IndicesWhere(selectedPoints, c, true)
      modifies this`selectedPoints
      ensures selectedPoints == RemoveMatching(old(selectedPoints), c)
    {
      ghost var pts := selectedPoints;
      ghost var b := |pts|;
      assert pts[..b] == pts && pts[b..] == [];
      var i := |indices|;
      while i > 0
        invariant 0 <= i <= |indices|
        invariant b <= |pts|
        invariant IndicesWhere(pts[..b], c, true) == indices[..i]
        invariant selectedPoints == pts[..b] + RemoveMatching(pts[b..], c)
      {
        SpliceStep(pts, c, b, indices, i, selectedPoints);
        var a := indices[i - 1];
        selectedPoints := selectedPoints[..a] + selectedPoints[a + 1..];
        b := a;
        i := i - 1;
      }
      assert indices[..0] == [];
      SpliceDone(pts, c, b);
    }

    /** The + Team button, given the answers to its two prompts and the id
        built from the clock: an empty or cancelled name changes nothing;
        otherwise the team is appended, becomes the current team, and the
        grid is redrawn. */
    method AddTeam(name: string, color: string, id: string) returns (redraw: bool)
      requires Valid()
      modifies this`teams, this`currentTeamIndex
      ensures Valid()
      ensures redraw == (name != "")
      ensures name == "" ==> teams == old(teams) && currentTeamIndex == old(currentTeamIndex)
      ensures name != "" ==> teams == old(teams) + [Team(id, name, color)] && currentTeamIndex == |old(teams)|
    {
      if name == "" {
        return false;
      }
      teams := teams + [Team(id, name, color)];
      currentTeamIndex := |teams| - 1;
      redraw := true;
    }

    /** The Rename button, given the prompt's answer: an empty or cancelled
        name changes nothing; otherwise only the current team's name
        changes. */
    method RenameTeam(newName: string)
      requires Valid()
      modifies this`teams
      ensures Valid()
      ensures newName == "" ==> teams == old(teams)
      ensures newName != "" ==> teams == old(teams)[currentTeamIndex := old(teams)[currentTeamIndex].(name := newName)]
    {
      if newName == "" {
        return;
      }
      teams := teams[currentTeamIndex := teams[currentTeamIndex].(name := newName)];
    }

    /** The Clear Team button: splices the current team's points out,
        scanning from the end, and asks for a redraw. */
    method ClearTeam() returns (redraw: bool)
      requires Valid()
      modifies this`selectedPoints
      ensures Valid() && redraw
      ensures selectedPoints == RemoveMatching(old(selectedPoints), OfTeam(CurrentTeamId()))
    {
      var teamId := teams[currentTeamIndex].id;
      ghost var pts := selectedPoints;
      assert pts[..|pts|] == pts && pts[|pts|..] == [];
      var i := |selectedPoints|;
      while i > 0
        invariant 0 <= i <= |pts|
        invariant selectedPoints == pts[..i] + RemoveMatching(pts[i..], OfTeam(teamId))
      {
        i := i - 1;
        ScanStep(pts, OfTeam(teamId), i);
        if selectedPoints[i].teamId == teamId {
          selectedPoints := selectedPoints[..i] + selectedPoints[i + 1..];
        }
      }
      assert pts[..0] == [] && pts[0..] == pts;
      redraw := true;
    }

    /** The Clear All button: empties the list and asks for a redraw. */
    method ClearAll() returns (redraw: bool)
      requires Valid()
      modifies this`selectedPoints
      ensures Valid() && redraw && selectedPoints == []
    {
      selectedPoints := [];
      redraw := true;
    }

    /** The map's click handler: in coords mode it records the clicked
        position at the head of the capped history. */
    method ProbeClick(probe: LatLng) returns (rendered: bool)
      requires Valid()
      modifies this`coordHistory
      ensures Valid()
      ensures rendered == (currentMode == Coords)
      ensures coordHistory == if currentMode == Coords then Probed(old(coordHistory), probe) else old(coordHistory)
    {
      if currentMode != Coords {
        return false;
      }
      coordHistory := [probe] + coordHistory;
      if |coordHistory| > MaxCoords {
        coordHistory := coordHistory[..|coordHistory| - 1];
      }
      rendered := true;
    }

    /** The mode button flips between select and coords. */
    method ToggleMode()
      requires Valid()
      modifies this`currentMode
      ensures Valid()
      ensures currentMode == if old(currentMode) == Select then Coords else Select
    {
      currentMode := if currentMode == Select then Coords else Select;
    }

    /** The team selector picks one of the listed teams. */
    method SelectTeam(index: nat)
      requires Valid() && index < |teams|
      modifies this`currentTeamIndex
      ensures Valid() && currentTeamIndex == index
    {
      currentTeamIndex := index;
    }

    /** The colour input recolours the current team and asks for a redraw. */
    method SetTeamColor(hex: string) returns (redraw: bool)
      requires Valid()
      modifies this`teams
      ensures Valid() && redraw
      ensures teams == old(teams)[currentTeamIndex := old(teams)[currentTeamIndex].(color := hex)]
    {
      teams := teams[currentTeamIndex := teams[currentTeamIndex].(color := hex)];
      redraw := true;
    }

    /** The alpha slider sets the fill opacity and asks for a redraw. */
    method SetAlpha(alpha: real) returns (redraw: bool)
      requires Valid()
      modifies this`selectionAlpha
      ensures Valid() && redraw && selectionAlpha == alpha
    {
      selectionAlpha := alpha;
      redraw := true;
    }

    /** What drawGrid draws at row `row`, column `col` of a `rows`-row grid. */
    function CellViewAt(row: int, col: int, rows: int): (v: CellView)
      reads this
      requires rows > 0
      ensures 0 <= row < rows && 0 <= col < rows && imageW > 0 && imageH > 0 ==>
        0.0 <= v.bounds.top && v.bounds.bottom <= imageH as real
        && 0.0 <= v.bounds.left && v.bounds.right <= imageW as real
      ensures v.fill.Tinted? ==> v.fill.opacity == selectionAlpha
    {
      var bounds := CellBounds(row, col, rows, imageW as real, imageH as real);
      var v := CellView(bounds, CellFill(selectedPoints, teams, bounds, selectionAlpha));
      if 0 <= row < rows && 0 <= col < rows && imageW > 0 && imageH > 0 then
        CellWithinImage(row, col, rows, imageW as real, imageH as real); v
      else v
    }

    /** How drawGrid fills one cell: by the team of the cell's newest point,
        when there is one and its team is still listed. */
    method FillOf(cell: Rect) returns (fill: Fill)
      ensures fill == CellFill(selectedPoints, teams, cell, selectionAlpha)
    {
      var last := LastPointInRect(cell);
      fill := Transparent;
      if last.Some? {
        var team := FindTeam(teams, last.value.pt.teamId);
        if team.Some? {
          fill := Tinted(HexToRgb(team.value.color), selectionAlpha);
        }
      }
    }

    /** The inner loop of drawGrid: the cells of row `r`. */
    method DrawRow(r: int, rows: int, cellW: real, cellH: real) returns (line: seq<CellView>)
      requires rows > 0
      requires cellW == CellSize(imageW as real, rows) && cellH == CellSize(imageH as real, rows)
      ensures |line| == rows
      ensures forall j :: 0 <= j < rows ==> line[j] == CellViewAt(r, j, rows)
    {
      line := [];
      var c := 0;
      while c < rows
        invariant 0 <= c <= rows
        invariant |line| == c
        invariant forall j :: 0 <= j < c ==> line[j] == CellViewAt(r, j, rows)
      {
        var top := r as real * cellH;
        var left := c as real * cellW;
        var bottom := top + cellH;
        var right := left + cellW;
        var cell := Rect(top, left, bottom, right);
        assert cell == CellBounds(r, c, rows, imageW as real, imageH as real);
        var fill := FillOf(cell);
        line := line + [CellView(cell, fill)];
        c := c + 1;
      }
    }

    /** drawGrid: nothing before the image has a size; otherwise a
        rows-by-rows grid at the density of the zoom level, each cell with
        the fill its newest point decides. */
    method DrawGrid(zoom: real) returns (grid: seq<seq<CellView>>)
      requires Valid()
      ensures imageW == 0 || imageH == 0 ==> grid == []
      ensures imageW > 0 && imageH > 0 ==>
        && |grid| == GridRows(zoom)
        && (forall r :: 0 <= r < |grid| ==> |grid[r]| == |grid|)
        && (forall r, c :: 0 <= r < |grid| && 0 <= c < |grid[r]| ==> grid[r][c] == CellViewAt(r, c, |grid|))
    {
      if imageW == 0 || imageH == 0 {
        return [];
      }
      var rows := RowsForZoom(zoom);
      if rows > SafeMaxRows {
        rows := SafeMaxRows;
      }
      var cellH := imageH as real / rows as real;
      var cellW := imageW as real / rows as real;
      grid := [];
      var r := 0;
      while r < rows
        invariant 0 <= r <= rows
        invariant |grid| == r
        invariant forall i :: 0 <= i < r ==> |grid[i]| == rows
        invariant forall i, c :: 0 <= i < r && 0 <= c < rows ==> grid[i][c] == CellViewAt(i, c, rows)
      {
        var line := DrawRow(r, rows, cellW, cellH);
        grid := grid + [line];
        r := r + 1;
      }
    }
  }

  /** Every rectangle drawGrid builds has the shape its click handler's
      claim relies on, so a second click of the same team on a freshly
      claimed grid cell clears it. */
  lemma GridCellClickTwice(pts: seq<SelectedPoint>, row: int, col: int, rows: int, imageW: nat, imageH: nat,
                           teamId: string, now1: int, now2: int)
    requires rows > 0 && imageW > 0 && imageH > 0
    requires !OwnedBy(pts, CellBounds(row, col, rows, imageW as real, imageH as real), teamId)
    ensures var cell := CellBounds(row, col, rows, imageW as real, imageH as real);
      var cellW, cellH := CellSize(imageW as real, rows), CellSize(imageH as real, rows);
      ClickOutcome(ClickOutcome(pts, cell, cellW, cellH, teamId, now1), cell, cellW, cellH, teamId, now2)
        == RemoveMatching(pts, InCell(cell))
  {
    var cell := CellBounds(row, col, rows, imageW as real, imageH as real);
    var cellW, cellH := CellSize(imageW as real, rows), CellSize(imageH as real, rows);
    assert CellShape(cell, cellW, cellH);
    ClickTwiceClears(pts, cell, cellW, cellH, teamId, now1, now2);
  }
}
