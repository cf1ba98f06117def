/** Teams and the fill decision drawGrid makes for each cell: a cell is
    coloured only when its newest point's team is still in the team list. */
module Teams {
  import opened Options
  import opened Grid
  import opened Colors
  import opened Store

  /** A selection category. Its id never changes; name and colour may. */
  datatype Team = Team(id: string, name: string, color: string)

  /** The two teams the page starts with. */
  function DefaultTeams(): (teams: seq<Team>)
    ensures |teams| == 2 && teams[0].id != teams[1].id
  {
    [Team("team-red", "Red", "#e53935"), Team("team-blue", "Blue", "#1e88e5")]
  }

  /** `teams.find(t => t.id === id)`: the first team with that id. */
  function FindTeam(teams: seq<Team>, id: string): (found: Option<Team>)
    ensures found.None? <==> forall k :: 0 <= k < |teams| ==> teams[k].id != id
    ensures found.Some? ==> found.value.id == id
    ensures found.Some? ==> exists k :: 0 <= k < |teams| && teams[k] == found.value
                                      && forall j :: 0 <= j < k ==> teams[j].id != id
  {
    if teams == [] then None
    else if teams[0].id == id then Some(teams[0])
    else
      var found := FindTeam(teams[1..], id);
      assert forall k :: 1 <= k < |teams| ==> teams[k] == teams[1..][k - 1];
      if found.Some? then
        var k :| 0 <= k < |teams[1..]| && teams[1..][k] == found.value
                 && forall j :: 0 <= j < k ==> teams[1..][j].id != id;
        assert teams[k + 1] == found.value;
        found
      else found
  }

  /** A team appended under an id no listed team has is the one found
      under that id. */
  lemma {:induction false} FindAppended(teams: seq<Team>, t: Team)
    requires forall k :: 0 <= k < |teams| ==> teams[k].id != t.id
    ensures FindTeam(teams + [t], t.id) == Some(t)
  {
    if teams != [] {
      assert (teams + [t])[1..] == teams[1..] + [t];
      FindAppended(teams[1..], t);
    }
  }

  /** Recolouring a team changes no cell from transparent to tinted or
      back: which cells are tinted depends on ids only. */
  lemma RecolourKeepsTint(pts: seq<SelectedPoint>, teams: seq<Team>, idx: nat, hex: string,
                          cell: Rect, alpha: real)
    requires idx < |teams|
    ensures CellFill(pts, teams[idx := teams[idx].(color := hex)], cell, alpha).Tinted?
        == CellFill(pts, teams, cell, alpha).Tinted?
  {
    var teams' := teams[idx := teams[idx].(color := hex)];
    var last := NewestInCell(pts, cell);
    if last.Some? {
      var id := last.value.pt.teamId;
      assert forall k :: 0 <= k < |teams| ==> teams'[k].id == teams[k].id;
      assert FindTeam(teams', id).None? == FindTeam(teams, id).None?;
    }
  }

  /** How a cell is drawn: transparent with a thin outline, or tinted with
      a team's colour at the selection alpha. */
  datatype Fill = Transparent | Tinted(rgb: Rgb, opacity: real)

  /** The fill of one cell: its newest point decides, and only if that
      point's team still exists. */
  function CellFill(pts: seq<SelectedPoint>, teams: seq<Team>, cell: Rect, alpha: real): (fill: Fill)
    ensures (forall i :: 0 <= i < |pts| ==> !Matches(pts[i], InCell(cell))) ==> fill == Transparent
    ensures fill.Tinted? ==> fill.opacity == alpha
  {
    match NewestInCell(pts, cell)
    case None => Transparent
    case Some(last) =>
      match FindTeam(teams, last.pt.teamId)
      case None => Transparent
      case Some(team) => Tinted(HexToRgb(team.color), alpha)
  }

  /** A cell is tinted exactly when some point inside it has no later point
      inside it and its team is listed. */
  lemma CellFillSpec(pts: seq<SelectedPoint>, teams: seq<Team>, cell: Rect, alpha: real)
    ensures CellFill(pts, teams, cell, alpha).Tinted? <==>
      exists i :: 0 <= i < |pts| && Matches(pts[i], InCell(cell))
        && (forall j :: i < j < |pts| ==> !Matches(pts[j], InCell(cell)))
        && (exists k :: 0 <= k < |teams| && teams[k].id == pts[i].teamId)
  {
    var last := NewestInCell(pts, cell);
    if last.Some? {
      var i := last.value.idx;
      forall i' | 0 <= i' < |pts| && Matches(pts[i'], InCell(cell))
                  && (forall j :: i' < j < |pts| ==> !Matches(pts[j], InCell(cell)))
        ensures i' == i
      {
      }
      if FindTeam(teams, pts[i].teamId).Some? {
        assert 0 <= i < |pts| && Matches(pts[i], InCell(cell))
          && (forall j :: i < j < |pts| ==> !Matches(pts[j], InCell(cell)));
      }
    }
  }

  /** The colour of a tinted cell: that of the first listed team whose id
      is the team of the cell's newest point, at the selection alpha. */
  lemma CellFillColour(pts: seq<SelectedPoint>, teams: seq<Team>, cell: Rect, alpha: real, i: nat, k: nat)
    requires i < |pts| && Matches(pts[i], InCell(cell))
    requires forall j :: i < j < |pts| ==> !Matches(pts[j], InCell(cell))
    requires k < |teams| && teams[k].id == pts[i].teamId
    requires forall j :: 0 <= j < k ==> teams[j].id != pts[i].teamId
    ensures CellFill(pts, teams, cell, alpha) == Tinted(HexToRgb(teams[k].color), alpha)
  {
    var last := NewestInCell(pts, cell);
    assert last.Some? && last.value.idx == i;
    var found := FindTeam(teams, pts[i].teamId);
    var k' :| 0 <= k' < |teams| && teams[k'] == found.value
              && forall j :: 0 <= j < k' ==> teams[j].id != pts[i].teamId;
    assert k' == k;
  }

  /** Recolouring a team repaints the cells whose newest point is that
      team's with the new colour. */
  lemma RecolourShows(pts: seq<SelectedPoint>, teams: seq<Team>, idx: nat, hex: string,
                      cell: Rect, alpha: real, i: nat)
    requires idx < |teams|
    requires forall j :: 0 <= j < idx ==> teams[j].id != teams[idx].id
    requires i < |pts| && Matches(pts[i], InCell(cell)) && pts[i].teamId == teams[idx].id
    requires forall j :: i < j < |pts| ==> !Matches(pts[j], InCell(cell))
    ensures CellFill(pts, teams[idx := teams[idx].(color := hex)], cell, alpha) == Tinted(HexToRgb(hex), alpha)
  {
    var teams' := teams[idx := teams[idx].(color := hex)];
    CellFillColour(pts, teams', cell, alpha, i, idx);
  }

  /** After a claim by a listed team the cell shows that team's colour; after
      a deselect it is transparent. */
  lemma ClickThenFill(pts: seq<SelectedPoint>, teams: seq<Team>, cell: Rect, cellW: real, cellH: real,
                      teamId: string, now: int, alpha: real)
    requires CellShape(cell, cellW, cellH)
    requires exists k :: 0 <= k < |teams| && teams[k].id == teamId
    ensures var after := ClickOutcome(pts, cell, cellW, cellH, teamId, now);
      CellFill(after, teams, cell, alpha)
        == if OwnedBy(pts, cell, teamId) then Transparent
           else Tinted(HexToRgb(FindTeam(teams, teamId).value.color), alpha)
  {
    ClickLeavesAtMostOne(pts, cell, cellW, cellH, teamId, now);
    var after := ClickOutcome(pts, cell, cellW, cellH, teamId, now);
    if OwnedBy(pts, cell, teamId) {
      ClickDeselects(pts, cell, cellW, cellH, teamId, now);
    }
  }
}
