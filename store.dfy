/** The selection store: the list of team-tagged points (selectedPoints),
    the reverse scan that finds the newest point in a cell, the removal
    passes, and what one click on a cell does to the list. */
module Store {
  import opened Options
  import opened Grid

  /** One team's claim: where it was stored (a cell centre), the team's id
      and when it was made (Date.now()). */
  datatype SelectedPoint = SelectedPoint(x: real, y: real, teamId: string, time: int)

  /** What lastPointInRect returns when it finds a point: `{ idx, pt }`. */
  datatype Found = Found(idx: nat, pt: SelectedPoint)

  /** What a removal pass matches: the points inside a cell (the click
      handler) or the points of one team (the Clear Team button). */
  datatype Criterion = InCell(cell: Rect) | OfTeam(teamId: string)

  predicate Matches(p: SelectedPoint, c: Criterion)
  {
    match c
    case InCell(cell) => PointInRect(p.x, p.y, cell)
    case OfTeam(id) => p.teamId == id
  }

  /** The newest point inside a cell: the one with the largest index, which
      a scan from the end meets first. */
  function NewestInCell(pts: seq<SelectedPoint>, cell: Rect): (last: Option<Found>)
    ensures last.None? <==> forall i :: 0 <= i < |pts| ==> !Matches(pts[i], InCell(cell))
    ensures last.Some? ==>
      && last.value.idx < |pts|
      && last.value.pt == pts[last.value.idx]
      && Matches(last.value.pt, InCell(cell))
      && forall j :: last.value.idx < j < |pts| ==> !Matches(pts[j], InCell(cell))
  {
    if pts == [] then None
    else if Matches(pts[|pts| - 1], InCell(cell)) then Some(Found(|pts| - 1, pts[|pts| - 1]))
    else NewestInCell(pts[..|pts| - 1], cell)
  }

  /** The indices i of `pts`, in increasing order, whose point matches `c`
      (`matching`) or does not (`!matching`). With `matching` it is the
      click handler's `indicesInside`. */
  function IndicesWhere(pts: seq<SelectedPoint>, c: Criterion, matching: bool): (idx: seq<nat>)
    ensures |idx| <= |pts|
  {
    if pts == [] then []
    else
      var n := |pts| - 1;
      IndicesWhere(pts[..n], c, matching) + (if Matches(pts[n], c) == matching then [n] else [])
  }

  /** The indices listed are exactly those with the asked-for status, each
      once, in increasing order. */
  lemma IndicesWhereSpec(pts: seq<SelectedPoint>, c: Criterion, matching: bool)
    ensures var idx := IndicesWhere(pts, c, matching);
      && (forall j :: 0 <= j < |idx| ==> idx[j] < |pts| && Matches(pts[idx[j]], c) == matching)
      && (forall j, k :: 0 <= j < k < |idx| ==> idx[j] < idx[k])
      && (forall i :: 0 <= i < |pts| && Matches(pts[i], c) == matching ==> i in idx)
  {
    IndicesWhereSound(pts, c, matching);
    IndicesWhereSorted(pts, c, matching);
    IndicesWhereComplete(pts, c, matching);
  }

  /** Every listed index is in range and has the asked-for status. */
  lemma {:induction false} IndicesWhereSound(pts: seq<SelectedPoint>, c: Criterion, matching: bool)
    ensures forall j :: 0 <= j < |IndicesWhere(pts, c, matching)| ==>
      IndicesWhere(pts, c, matching)[j] < |pts| && Matches(pts[IndicesWhere(pts, c, matching)[j]], c) == matching
  {
    if pts != [] {
      var n := |pts| - 1;
      var front := pts[..n];
      var prev := IndicesWhere(front, c, matching);
      IndicesWhereSound(front, c, matching);
      var idx := IndicesWhere(pts, c, matching);
      assert idx == prev + (if Matches(pts[n], c) == matching then [n] else []);
      forall j | 0 <= j < |idx| ensures idx[j] < |pts| && Matches(pts[idx[j]], c) == matching {
        if j < |prev| {
          assert idx[j] == prev[j] && pts[prev[j]] == front[prev[j]];
        }
      }
    }
  }

  /** The listed indices increase strictly. */
  lemma {:induction false} IndicesWhereSorted(pts: seq<SelectedPoint>, c: Criterion, matching: bool)
    ensures forall j, k :: 0 <= j < k < |IndicesWhere(pts, c, matching)| ==>
      IndicesWhere(pts, c, matching)[j] < IndicesWhere(pts, c, matching)[k]
  {
    if pts != [] {
      var n := |pts| - 1;
      var front := pts[..n];
      var prev := IndicesWhere(front, c, matching);
      IndicesWhereSorted(front, c, matching);
      IndicesWhereSound(front, c, matching);
      var idx := IndicesWhere(pts, c, matching);
      assert idx == prev + (if Matches(pts[n], c) == matching then [n] else []);
      forall j, k | 0 <= j < k < |idx| ensures idx[j] < idx[k] {
        assert idx[j] == prev[j];
        if k < |prev| {
          assert idx[k] == prev[k];
        }
      }
    }
  }

  /** Every index with the asked-for status is listed. */
  lemma {:induction false} IndicesWhereComplete(pts: seq<SelectedPoint>, c: Criterion, matching: bool)
    ensures forall i :: 0 <= i < |pts| && Matches(pts[i], c) == matching ==> i in IndicesWhere(pts, c, matching)
  {
    if pts != [] {
      var n := |pts| - 1;
      var front := pts[..n];
      var prev := IndicesWhere(front, c, matching);
      IndicesWhereComplete(front, c, matching);
      var idx := IndicesWhere(pts, c, matching);
      assert idx == prev + (if Matches(pts[n], c) == matching then [n] else []);
      forall i | 0 <= i < |pts| && Matches(pts[i], c) == matching ensures i in idx {
        if i < n {
          assert front[i] == pts[i];
          assert i in prev;
        }
      }
    }
  }

  /** The list with every matching point spliced out. */
  function RemoveMatching(pts: seq<SelectedPoint>, c: Criterion): (kept: seq<SelectedPoint>)
    ensures |kept| <= |pts|
  {
    if pts == [] then []
    else
      var n := |pts| - 1;
      var rest := RemoveMatching(pts[..n], c);
      assert pts == pts[..n] + [pts[n]];
      rest + (if Matches(pts[n], c) then [] else [pts[n]])
  }

  /** Removal keeps exactly the points that do not match, in their original
      relative order: the k-th survivor is the point at the k-th
      non-matching index. */
  lemma {:induction false} RemoveMatchingKeepsOrder(pts: seq<SelectedPoint>, c: Criterion)
    ensures var kept, at := RemoveMatching(pts, c), IndicesWhere(pts, c, false);
      |kept| == |at| && forall k :: 0 <= k < |kept| ==> at[k] < |pts| && kept[k] == pts[at[k]]
  {
    if pts != [] {
      var n := |pts| - 1;
      RemoveMatchingKeepsOrder(pts[..n], c);
      var kept', at' := RemoveMatching(pts[..n], c), IndicesWhere(pts[..n], c, false);
      var kept, at := RemoveMatching(pts, c), IndicesWhere(pts, c, false);
      if Matches(pts[n], c) {
        assert kept == kept' && at == at';
      } else {
        assert kept == kept' + [pts[n]] && at == at' + [n];
      }
      forall k | 0 <= k < |kept| ensures at[k] < |pts| && kept[k] == pts[at[k]] {
        if k < |kept'| {
          assert at[k] == at'[k] < n;
          assert kept[k] == kept'[k] == pts[..n][at'[k]];
        }
      }
    }
  }

  /** Removal shortens the list by the number of matching points. */
  lemma {:induction false} RemoveMatchingCount(pts: seq<SelectedPoint>, c: Criterion)
    ensures |RemoveMatching(pts, c)| + |IndicesWhere(pts, c, true)| == |pts|
  {
    if pts != [] {
      RemoveMatchingCount(pts[..|pts| - 1], c);
    }
  }

  /** A point survives removal exactly when it was in the list and does not
      match. */
  lemma {:induction false} RemoveMatchingMembers(pts: seq<SelectedPoint>, c: Criterion)
    ensures forall p :: p in RemoveMatching(pts, c) <==> p in pts && !Matches(p, c)
  {
    if pts != [] {
      var n := |pts| - 1;
      RemoveMatchingMembers(pts[..n], c);
      assert pts == pts[..n] + [pts[n]];
    }
  }

  /** Removal distributes over concatenation. */
  lemma {:induction false} RemoveMatchingAppend(a: seq<SelectedPoint>, b: seq<SelectedPoint>, c: Criterion)
    ensures RemoveMatching(a + b, c) == RemoveMatching(a, c) + RemoveMatching(b, c)
  {
    if b == [] {
      assert a + b == a;
    } else {
      var n := |b| - 1;
      var ab := a + b;
      assert ab[..|ab| - 1] == a + b[..n];
      assert ab[|ab| - 1] == b[n];
      var tail := if Matches(b[n], c) then [] else [b[n]];
      RemoveMatchingAppend(a, b[..n], c);
      calc {
        RemoveMatching(ab, c);
        RemoveMatching(a + b[..n], c) + tail;
        RemoveMatching(a, c) + RemoveMatching(b[..n], c) + tail;
        RemoveMatching(a, c) + (RemoveMatching(b[..n], c) + tail);
        RemoveMatching(a, c) + RemoveMatching(b, c);
      }
    }
  }

  /** A list with nothing matching is left as it is. */
  lemma {:induction false} RemoveMatchingNone(pts: seq<SelectedPoint>, c: Criterion)
    requires forall i :: 0 <= i < |pts| ==> !Matches(pts[i], c)
    ensures RemoveMatching(pts, c) == pts
  {
    if pts != [] {
      var n := |pts| - 1;
      RemoveMatchingNone(pts[..n], c);
      assert pts == pts[..n] + [pts[n]];
    }
  }

  /** Removing a second time changes nothing. */
  lemma RemoveMatchingIdempotent(pts: seq<SelectedPoint>, c: Criterion)
    ensures RemoveMatching(RemoveMatching(pts, c), c) == RemoveMatching(pts, c)
  {
    var kept := RemoveMatching(pts, c);
    RemoveMatchingMembers(pts, c);
    assert forall i :: 0 <= i < |kept| ==> kept[i] in kept;
    RemoveMatchingNone(kept, c);
  }

  /** Removal from a one-point list. */
  lemma RemoveMatchingSingle(x: SelectedPoint, c: Criterion)
    ensures RemoveMatching([x], c) == if Matches(x, c) then [] else [x]
  {
    assert [x][..0] == [];
  }

  /** Removal from a list with a known first element. */
  lemma RemoveMatchingCons(x: SelectedPoint, rest: seq<SelectedPoint>, c: Criterion)
    ensures RemoveMatching([x] + rest, c) == (if Matches(x, c) then [] else [x]) + RemoveMatching(rest, c)
  {
    RemoveMatchingSingle(x, c);
    RemoveMatchingAppend([x], rest, c);
  }

  /** Matching indices do not change across a stretch without matches. */
  lemma {:induction false} IndicesWhereStable(pts: seq<SelectedPoint>, c: Criterion, m: nat, b: nat)
    requires m <= b <= |pts|
    requires forall k :: m <= k < b ==> !Matches(pts[k], c)
    ensures IndicesWhere(pts[..b], c, true) == IndicesWhere(pts[..m], c, true)
  {
    if m < b {
      assert pts[..b][..b - 1] == pts[..b - 1];
      IndicesWhereStable(pts, c, m, b - 1);
    }
  }

  /** One step of splicing the matching indices out from the highest down.
      Before it, the points from `b` on have been filtered and the first `i`
      of `indices` are the matching indices below `b`; splicing the last of
      them, `a`, out of the list filters from `a` on. */
  lemma SpliceStep(pts: seq<SelectedPoint>, c: Criterion, b: nat, indices: seq<nat>, i: nat,
                   cur: seq<SelectedPoint>)
    requires b <= |pts| && 0 < i <= |indices|
    requires IndicesWhere(pts[..b], c, true) == indices[..i]
    requires cur == pts[..b] + RemoveMatching(pts[b..], c)
    ensures indices[i - 1] < b <= |cur|
    ensures IndicesWhere(pts[..indices[i - 1]], c, true) == indices[..i - 1]
    ensures cur[..indices[i - 1]] + cur[indices[i - 1] + 1..]
         == pts[..indices[i - 1]] + RemoveMatching(pts[indices[i - 1]..], c)
  {
    var s := IndicesWhere(pts[..b], c, true);
    assert s[|s| - 1] == indices[i - 1];
    assert s[..|s| - 1] == indices[..i - 1];
    LastMatchingIndex(pts, c, b);
    SpliceSeq(pts, c, indices[i - 1], b);
  }

  /** Once no matching index is left below `b`, the list filtered from `b`
      on is the whole list filtered. */
  lemma SpliceDone(pts: seq<SelectedPoint>, c: Criterion, b: nat)
    requires b <= |pts| && IndicesWhere(pts[..b], c, true) == []
    ensures pts[..b] + RemoveMatching(pts[b..], c) == RemoveMatching(pts, c)
  {
    NoIndicesNoRemoval(pts[..b], c);
    RemoveMatchingAppend(pts[..b], pts[b..], c);
    assert pts[..b] + pts[b..] == pts;
  }

  /** A list with no matching index is left as it is by removal. */
  lemma NoIndicesNoRemoval(pts: seq<SelectedPoint>, c: Criterion)
    requires IndicesWhere(pts, c, true) == []
    ensures RemoveMatching(pts, c) == pts
  {
    IndicesWhereSpec(pts, c, true);
    RemoveMatchingNone(pts, c);
  }

  /** The highest matching index below `b` matches, nothing between it and
      `b` does, and the matching indices below it are the others. */
  lemma LastMatchingIndex(pts: seq<SelectedPoint>, c: Criterion, b: nat)
    requires b <= |pts|
    requires IndicesWhere(pts[..b], c, true) != []
    ensures var s := IndicesWhere(pts[..b], c, true);
      var a := s[|s| - 1];
      && a < b && Matches(pts[a], c)
      && (forall k :: a < k < b ==> !Matches(pts[k], c))
      && IndicesWhere(pts[..a], c, true) == s[..|s| - 1]
  {
    var s := IndicesWhere(pts[..b], c, true);
    var a := s[|s| - 1];
    IndicesWhereSpec(pts[..b], c, true);
    assert pts[..b][a] == pts[a];
    forall j | 0 <= j < |s| ensures s[j] <= a {
      if j < |s| - 1 { assert s[j] < s[|s| - 1]; }
    }
    forall k | a < k < b ensures !Matches(pts[k], c) {
      assert k !in s;
      assert pts[..b][k] == pts[k];
    }
    IndicesWhereStable(pts, c, a + 1, b);
    assert pts[..a + 1][..a] == pts[..a];
    assert IndicesWhere(pts[..a + 1], c, true) == IndicesWhere(pts[..a], c, true) + [a];
  }

  /** Splicing out a matching point `a` that has no matching point between
      it and the filtered tail from `b` extends the filtered tail to `a`. */
  lemma SpliceSeq(pts: seq<SelectedPoint>, c: Criterion, a: nat, b: nat)
    requires a < b <= |pts| && Matches(pts[a], c)
    requires forall k :: a < k < b ==> !Matches(pts[k], c)
    ensures var cur := pts[..b] + RemoveMatching(pts[b..], c);
      cur[..a] + cur[a + 1..] == pts[..a] + RemoveMatching(pts[a..], c)
  {
    FilterFrom(pts, c, a, b);
    var cur := pts[..b] + RemoveMatching(pts[b..], c);
    assert cur[..a] == pts[..a];
    assert cur[a + 1..] == pts[a + 1..b] + RemoveMatching(pts[b..], c);
  }

  /** Filtering from a matching point `a` followed by non-matching points up
      to `b` drops `a`, keeps the points between and filters on from `b`. */
  lemma FilterFrom(pts: seq<SelectedPoint>, c: Criterion, a: nat, b: nat)
    requires a < b <= |pts| && Matches(pts[a], c)
    requires forall k :: a < k < b ==> !Matches(pts[k], c)
    ensures RemoveMatching(pts[a..], c) == pts[a + 1..b] + RemoveMatching(pts[b..], c)
  {
    var middle, rest := pts[a + 1..b], pts[b..];
    var head := pts[a..b];
    assert pts[a..] == head + rest;
    RemoveMatchingAppend(head, rest, c);
    assert RemoveMatching(head, c) == middle by {
      assert head == [pts[a]] + middle;
      RemoveMatchingCons(pts[a], middle, c);
      RemoveMatchingNone(middle, c);
    }
  }

  /** One step of the descending scan that splices matching points out in
      place: the points from `i + 1` on have been filtered; deciding on the
      point at `i` filters from `i` on. */
  lemma ScanStep(pts: seq<SelectedPoint>, c: Criterion, i: nat)
    requires i < |pts|
    ensures var cur := pts[..i + 1] + RemoveMatching(pts[i + 1..], c);
      && cur[i] == pts[i]
      && (if Matches(pts[i], c) then cur[..i] + cur[i + 1..] else cur)
         == pts[..i] + RemoveMatching(pts[i..], c)
  {
    assert pts[i..] == [pts[i]] + pts[i + 1..];
    RemoveMatchingCons(pts[i], pts[i + 1..], c);
    var cur := pts[..i + 1] + RemoveMatching(pts[i + 1..], c);
    assert cur[..i] == pts[..i];
    assert cur[i + 1..] == RemoveMatching(pts[i + 1..], c);
    assert pts[..i + 1] == pts[..i] + [pts[i]];
  }

  // ---- The click on a cell --------------------------------------------

  /** The point a claim appends: the cell's centre, tagged with the team. */
  function Centre(cell: Rect, cellW: real, cellH: real, teamId: string, now: int): (c: SelectedPoint)
    ensures c.teamId == teamId && c.time == now
    ensures CellShape(cell, cellW, cellH) ==> Matches(c, InCell(cell))
  {
    var c := SelectedPoint(CellCentreX(cell, cellW), CellCentreY(cell, cellH), teamId, now);
    if CellShape(cell, cellW, cellH) then CentreInCell(cell, cellW, cellH); c else c
  }

  /** The cell's newest point belongs to the team: a click deselects. */
  predicate OwnedBy(pts: seq<SelectedPoint>, cell: Rect, teamId: string)
    ensures OwnedBy(pts, cell, teamId) ==>
      exists i :: 0 <= i < |pts| && Matches(pts[i], InCell(cell)) && pts[i].teamId == teamId
  {
    var last := NewestInCell(pts, cell);
    last.Some? && last.value.pt.teamId == teamId
  }

  /** The click deselects exactly when the cell's newest point, the one no
      later point in the cell follows, is the team's. */
  lemma OwnedBySpec(pts: seq<SelectedPoint>, cell: Rect, teamId: string)
    ensures OwnedBy(pts, cell, teamId) <==>
      exists i :: 0 <= i < |pts| && Matches(pts[i], InCell(cell))
        && (forall j :: i < j < |pts| ==> !Matches(pts[j], InCell(cell)))
        && pts[i].teamId == teamId
  {
    var last := NewestInCell(pts, cell);
    if last.Some? {
      var i := last.value.idx;
      forall i' | 0 <= i' < |pts| && Matches(pts[i'], InCell(cell))
                  && (forall j :: i' < j < |pts| ==> !Matches(pts[j], InCell(cell)))
        ensures i' == i
      {
      }
    }
  }

  /** The list after a select-mode click on `cell` by team `teamId` at time
      `now`: every point in the cell is removed, and unless the click was a
      deselect the cell's centre is appended for the team. */
  function ClickOutcome(pts: seq<SelectedPoint>, cell: Rect, cellW: real, cellH: real,
                        teamId: string, now: int): (after: seq<SelectedPoint>)
    ensures OwnedBy(pts, cell, teamId) ==> |after| <= |pts|
    ensures !OwnedBy(pts, cell, teamId) ==>
      0 < |after| <= |pts| + 1 && after[|after| - 1].teamId == teamId && after[|after| - 1].time == now
  {
    var kept := RemoveMatching(pts, InCell(cell));
    if OwnedBy(pts, cell, teamId) then kept
    else kept + [Centre(cell, cellW, cellH, teamId, now)]
  }

  /** Deselect: when the cell's newest point is the team's, every point in
      the cell goes, every point outside stays, and nothing is added. */
  lemma ClickDeselects(pts: seq<SelectedPoint>, cell: Rect, cellW: real, cellH: real,
                       teamId: string, now: int)
    requires OwnedBy(pts, cell, teamId)
    ensures var after := ClickOutcome(pts, cell, cellW, cellH, teamId, now);
      && |after| == |pts| - |IndicesWhere(pts, InCell(cell), true)|
      && (forall p :: p in after <==> p in pts && !Matches(p, InCell(cell)))
      && NewestInCell(after, cell).None?
      && after == RemoveMatching(pts, InCell(cell))
  {
    RemoveMatchingCount(pts, InCell(cell));
    RemoveMatchingMembers(pts, InCell(cell));
  }

  /** Claim: otherwise the points outside the cell stay in order and the
      centre, tagged with the team, comes last; the list grows by one less
      the number of points that were in the cell. */
  lemma ClickClaims(pts: seq<SelectedPoint>, cell: Rect, cellW: real, cellH: real,
                    teamId: string, now: int)
    requires !OwnedBy(pts, cell, teamId)
    ensures var after := ClickOutcome(pts, cell, cellW, cellH, teamId, now);
      && |after| == |pts| + 1 - |IndicesWhere(pts, InCell(cell), true)|
      && after[..|after| - 1] == RemoveMatching(pts, InCell(cell))
      && after[|after| - 1] == Centre(cell, cellW, cellH, teamId, now)
  {
    RemoveMatchingCount(pts, InCell(cell));
  }

  /** The rectangle of a cell `cellW` wide and `cellH` high, as drawGrid
      builds it from its top-left corner. */
  predicate CellShape(cell: Rect, cellW: real, cellH: real)
  {
    cellW > 0.0 && cellH > 0.0 && cell.bottom == cell.top + cellH && cell.right == cell.left + cellW
  }

  /** After a click the clicked cell holds at most one point: none after a
      deselect, only the new centre (the team's claim) after a claim. */
  lemma {:induction false} ClickLeavesAtMostOne(pts: seq<SelectedPoint>, cell: Rect, cellW: real, cellH: real,
                                                teamId: string, now: int)
    requires CellShape(cell, cellW, cellH)
    ensures var after := ClickOutcome(pts, cell, cellW, cellH, teamId, now);
      && IndicesWhere(after, InCell(cell), true)
         == (if OwnedBy(pts, cell, teamId) then [] else [|after| - 1])
      && (!OwnedBy(pts, cell, teamId) ==> OwnedBy(after, cell, teamId))
  {
    var kept := RemoveMatching(pts, InCell(cell));
    RemoveMatchingMembers(pts, InCell(cell));
    NoneInside(kept, InCell(cell));
    if !OwnedBy(pts, cell, teamId) {
      var after := kept + [Centre(cell, cellW, cellH, teamId, now)];
      CentreInCell(cell, cellW, cellH);
      assert after[..|kept|] == kept;
    }
  }

  /** A list without matching points has no matching index. */
  lemma {:induction false} NoneInside(pts: seq<SelectedPoint>, c: Criterion)
    requires forall p :: p in pts ==> !Matches(p, c)
    ensures IndicesWhere(pts, c, true) == []
  {
    if pts != [] {
      var n := |pts| - 1;
      assert forall p :: p in pts[..n] ==> p in pts;
      NoneInside(pts[..n], c);
    }
  }

  /** Toggle: a claim followed by a second click of the same team on the same
      cell leaves the list as if every point in the cell had just been
      removed; in particular the cell is empty again. */
  lemma {:induction false} ClickTwiceClears(pts: seq<SelectedPoint>, cell: Rect, cellW: real, cellH: real,
                                            teamId: string, now1: int, now2: int)
    requires CellShape(cell, cellW, cellH)
    requires !OwnedBy(pts, cell, teamId)
    ensures var once := ClickOutcome(pts, cell, cellW, cellH, teamId, now1);
      && ClickOutcome(once, cell, cellW, cellH, teamId, now2) == RemoveMatching(pts, InCell(cell))
      && NewestInCell(ClickOutcome(once, cell, cellW, cellH, teamId, now2), cell).None?
  {
    var kept := RemoveMatching(pts, InCell(cell));
    var centre := Centre(cell, cellW, cellH, teamId, now1);
    var once := kept + [centre];
    ClickLeavesAtMostOne(pts, cell, cellW, cellH, teamId, now1);
    assert OwnedBy(once, cell, teamId);
    CentreInCell(cell, cellW, cellH);
    RemoveMatchingAppend(kept, [centre], InCell(cell));
    assert [centre][..0] == [];
    assert RemoveMatching([centre], InCell(cell)) == [];
    RemoveMatchingIdempotent(pts, InCell(cell));
    RemoveMatchingMembers(pts, InCell(cell));
  }
}
