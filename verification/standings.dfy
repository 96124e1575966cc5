/**
 The standings view (Standings.js): its state, the user actions that change
 it, the two column schemas and what one render pass shows.
 */
module Standings {
  import opened Wrappers
  import opened League
  import opened Ranking
  import Cells

  datatype Column = Column(id: ColumnId, caption: string)

  const StandingsColumns: seq<Column> := [
    Column(RecordKey, "Record"),
    Column(PointsForKey, "PF"),
    Column(PointsAgainstKey, "PA"),
    Column(OverallRatingKey, "Rating"),
    Column(MadePlayoffKey, "Playoffs")
  ]

  const PlayoffsColumns: seq<Column> := [
    Column(RecordKey, "Record"),
    Column(OverallRatingKey, "Rating"),
    Column(MadePlayoffKey, "Playoffs"),
    Column(ChampionshipKey, "Champ"),
    Column(LoserBowlKey, "Pickles")
  ]

  /** The columns shown in the given view. */
  function Columns(isPlayoffsView: bool): (cs: seq<Column>)
    ensures |cs| == 5 && cs[0] == Column(RecordKey, "Record")
    ensures forall i | 0 <= i < |cs| :: cs[i].id in Cells.KnownColumns
    ensures forall i, j | 0 <= i < j < |cs| :: cs[i].id != cs[j].id
  {
    if isPlayoffsView then PlayoffsColumns else StandingsColumns
  }

  function Ids(cs: seq<Column>): (ids: seq<ColumnId>)
    ensures |ids| == |cs|
    ensures forall i | 0 <= i < |cs| :: ids[i] == cs[i].id
  {
    seq(|cs|, i requires 0 <= i < |cs| => cs[i].id)
  }

  datatype StandingsState = StandingsState(
    teams: seq<Team>,
    orderDirection: Direction,
    valueToOrderBy: ColumnId,
    loading: bool,
    error: Option<string>,
    selectedTeam: Option<Team>,
    open: bool,
    isPlayoffsView: bool)

  /** The state when the view mounts: no teams yet, loading, ranked by record, best first. */
  function Init(): (s: StandingsState)
    ensures s.valueToOrderBy == RecordKey && s.orderDirection == Desc
    ensures s.selectedTeam == None && !s.open && !s.isPlayoffsView
    ensures s.loading && s.error == None && s.teams == []
  {
    StandingsState([], Desc, RecordKey, true, None, None, false, false)
  }

  /**
   The end of the one fetch: a report installs its teams, a missing one
   (the report client answers null when the request fails) records the error.
   Loading ends either way.
   */
  function Load(s: StandingsState, data: Option<Report>): (s': StandingsState)
    ensures !s'.loading
    ensures data.Some? ==> s'.teams == data.value.teams && s'.error == s.error
    ensures data.None? ==> s'.error.Some? && s'.teams == s.teams
    ensures s'.valueToOrderBy == s.valueToOrderBy && s'.orderDirection == s.orderDirection
    ensures s'.selectedTeam == s.selectedTeam && s'.open == s.open && s'.isPlayoffsView == s.isPlayoffsView
  {
    match data
    case Some(r) => s.(teams := r.teams, loading := false)
    case None => s.(error := Some("Failed to load teams"), loading := false)
  }

  /**
   A click on a column header: the column becomes the sort key; the direction
   becomes Desc only when that column was already sorted Asc, and Asc in every
   other case, including a newly chosen column.
   */
  function SortRequest(s: StandingsState, property: ColumnId): (s': StandingsState)
    ensures s'.valueToOrderBy == property
    ensures s'.orderDirection == Desc <==> s.valueToOrderBy == property && s.orderDirection == Asc
    ensures s'.valueToOrderBy != s.valueToOrderBy ==> s'.orderDirection == Asc
    ensures s' == s.(valueToOrderBy := s'.valueToOrderBy, orderDirection := s'.orderDirection)
  {
    var isAsc := s.valueToOrderBy == property && s.orderDirection == Asc;
    s.(orderDirection := if isAsc then Desc else Asc, valueToOrderBy := property)
  }

  /** Two clicks on the active column give back the original key and direction. */
  lemma SortRequestTwiceOnActive(s: StandingsState)
    ensures SortRequest(SortRequest(s, s.valueToOrderBy), s.valueToOrderBy) == s
  {
  }

  /** Two clicks on a column that was not active leave it sorted Desc. */
  lemma SortRequestTwiceOnNew(s: StandingsState, property: ColumnId)
    requires property != s.valueToOrderBy
    ensures SortRequest(SortRequest(s, property), property)
         == s.(valueToOrderBy := property, orderDirection := Desc)
  {
  }

  /** On the active column a click flips the direction. */
  lemma SortRequestFlipsActive(s: StandingsState)
    ensures SortRequest(s, s.valueToOrderBy).orderDirection == Flip(s.orderDirection)
  {
  }

  /** The view button: flips only the playoffs flag. */
  function ToggleView(s: StandingsState): (s': StandingsState)
    ensures s'.isPlayoffsView != s.isPlayoffsView
    ensures s' == s.(isPlayoffsView := s'.isPlayoffsView)
  {
    s.(isPlayoffsView := !s.isPlayoffsView)
  }

  /** Toggling keeps the sort and twice restores the state, hence the columns shown. */
  lemma ToggleViewTwice(s: StandingsState)
    ensures ToggleView(ToggleView(s)) == s
    ensures Columns(ToggleView(ToggleView(s)).isPlayoffsView) == Columns(s.isPlayoffsView)
    ensures Columns(ToggleView(s).isPlayoffsView) != Columns(s.isPlayoffsView)
    ensures ToggleView(s).valueToOrderBy == s.valueToOrderBy && ToggleView(s).orderDirection == s.orderDirection
  {
    assert Columns(true)[1] != Columns(false)[1];
  }

  /** A click on a playoff cell: selects the team and opens the modal. */
  function Open(s: StandingsState, team: Team): (s': StandingsState)
    ensures s'.open && s'.selectedTeam == Some(team)
    ensures s' == s.(open := true, selectedTeam := Some(team))
  {
    s.(selectedTeam := Some(team), open := true)
  }

  /** Dismissing the modal: closes it and clears the selection. */
  function Close(s: StandingsState): (s': StandingsState)
    ensures !s'.open && s'.selectedTeam == None
    ensures s' == s.(open := false, selectedTeam := None)
  {
    s.(open := false, selectedTeam := None)
  }

  /** Closing right after opening restores a state whose modal was closed. */
  lemma OpenThenClose(s: StandingsState, team: Team)
    requires !s.open && s.selectedTeam == None
    ensures Close(Open(s, team)) == s
  {
  }

  /** A header: active exactly on the sort column, whose arrow shows the direction; others show Asc. */
  datatype Header = Header(id: ColumnId, caption: string, active: bool, direction: Direction)

  datatype Modal = Modal(open: bool, team: Option<Team>)

  datatype StandingsView =
    | Spinner
    | ErrorMessage(message: string)
    | Page(title: string, toggleLabel: string, headers: seq<Header>, rows: seq<seq<Cells.Cell>>, modal: Modal)

  function HeaderFor(orderBy: ColumnId, direction: Direction, c: Column): (h: Header)
    ensures h.id == c.id && h.caption == c.caption
    ensures h.active <==> c.id == orderBy
    ensures h.direction == (if h.active then direction else Asc)
  {
    var active := orderBy == c.id;
    Header(c.id, c.caption, active, if active then direction else Asc)
  }

  /** What a render pass shows, together with the state it leaves: `sort` reorders `teams` in place. */
  datatype Rendered = Rendered(view: StandingsView, state: StandingsState)

  /**
   One render: a spinner while loading, the error and no table after a failed
   load, and otherwise the title, the headers of the current view and one row
   per team in ranked order. The teams array is left in that ranked order.
   */
  function Render(s: StandingsState): (out: Rendered)
    ensures s.loading ==> out == Rendered(Spinner, s)
    ensures !s.loading && s.error.Some? ==> out.view.ErrorMessage? && out.state == s
    ensures out.view.Page? <==> !s.loading && s.error.None?
    ensures out.view.Page? ==>
      var ranked := SortedTeams(s.valueToOrderBy, s.orderDirection, s.teams);
      var cs := Columns(s.isPlayoffsView);
      && out.state == s.(teams := ranked)
      && |out.view.headers| == |cs|
      && (forall i | 0 <= i < |cs| :: out.view.headers[i] == HeaderFor(s.valueToOrderBy, s.orderDirection, cs[i]))
      && |out.view.rows| == |s.teams|
      && (forall i | 0 <= i < |ranked| :: out.view.rows[i] == Cells.Row(ranked[i], Ids(cs)))
      && out.view.modal == Modal(s.open, s.selectedTeam)
      && out.view.title == (if s.isPlayoffsView then "Playoff Odds" else "Standings")
  {
    if s.loading then Rendered(Spinner, s)
    else if s.error.Some? then Rendered(ErrorMessage("Error: " + s.error.value), s)
    else
      var ranked := SortedTeams(s.valueToOrderBy, s.orderDirection, s.teams);
      var page := PageFor(s.valueToOrderBy, s.orderDirection, s.isPlayoffsView, Modal(s.open, s.selectedTeam), ranked);
      Rendered(page, s.(teams := ranked))
  }

  /** The table page listing `ranked` under the given sort, view and modal. */
  function PageFor(orderBy: ColumnId, direction: Direction, isPlayoffsView: bool, modal: Modal, ranked: seq<Team>): StandingsView
  {
    var cs := Columns(isPlayoffsView);
    var headers := seq(|cs|, i requires 0 <= i < |cs| => HeaderFor(orderBy, direction, cs[i]));
    var rows := seq(|ranked|, i requires 0 <= i < |ranked| => Cells.Row(ranked[i], Ids(cs)));
    Page(
      if isPlayoffsView then "Playoff Odds" else "Standings",
      if isPlayoffsView then "Standings" else "Playoffs",
      headers, rows, modal)
  }

  /** Every row of a rendered table has one cell per column, and only its playoff cell is clickable. */
  lemma RenderedRowsComplete(s: StandingsState, i: int, k: int)
    requires Render(s).view.Page? && 0 <= i < |Render(s).view.rows|
    requires 0 <= k < 5
    ensures |Render(s).view.rows[i]| == 5
    ensures Render(s).view.rows[i][k].column == Columns(s.isPlayoffsView)[k].id
    ensures Render(s).view.rows[i][k].onClick.Some? <==> Columns(s.isPlayoffsView)[k].id == MadePlayoffKey
  {
    var cs := Columns(s.isPlayoffsView);
    var ranked := SortedTeams(s.valueToOrderBy, s.orderDirection, s.teams);
    Cells.RowAllKnown(ranked[i], Ids(cs));
    Cells.RowClickTargets(ranked[i], Ids(cs), k);
  }

  /**
   Rendering again without any user action shows the same table: the in-place
   sort of the first render does not disturb the second, under a ranked key.
   */
  lemma RenderTwiceSameView(s: StandingsState)
    requires Ranked(s.valueToOrderBy, s.teams)
    ensures Render(Render(s).state).view == Render(s).view
  {
    if !s.loading && s.error.None? {
      SortedTeamsIdempotent(s.valueToOrderBy, s.orderDirection, s.teams);
    }
  }

  /** The view depends on the teams only through their ranked order. */
  lemma RenderViewDependsOnRanking(x: StandingsState, y: StandingsState)
    requires x == y.(teams := x.teams)
    requires SortedTeams(x.valueToOrderBy, x.orderDirection, x.teams)
          == SortedTeams(y.valueToOrderBy, y.orderDirection, y.teams)
    ensures Render(x).view == Render(y).view
  {
  }

  /**
   Two clicks on the active header re-sort twice in place, yet the table comes
   back exactly as it was.
   */
  lemma DoubleClickRestoresTable(s: StandingsState)
    requires !s.loading && s.error.None? && Ranked(s.valueToOrderBy, s.teams)
    ensures
      var first := Render(s).state;
      var flipped := Render(SortRequest(first, s.valueToOrderBy)).state;
      Render(SortRequest(flipped, s.valueToOrderBy)).view == Render(s).view
  {
    var key, dir := s.valueToOrderBy, s.orderDirection;
    var t0 := SortedTeams(key, dir, s.teams);
    var first := Render(s).state;
    assert first == s.(teams := t0);
    var clicked := SortRequest(first, key);
    assert clicked == s.(teams := t0, orderDirection := Flip(dir));
    var t1 := SortedTeams(key, Flip(dir), t0);
    var flipped := Render(clicked).state;
    assert flipped == s.(teams := t1, orderDirection := Flip(dir));
    var back := SortRequest(flipped, key);
    assert back == s.(teams := t1);
    assert Ranked(key, t0) by {
      forall t | t in t0 ensures Comparable(key, t) {
        assert t in multiset(t0);
      }
    }
    SortedTeamsFlipBack(key, dir, t0);
    SortedTeamsIdempotent(key, dir, s.teams);
    RenderViewDependsOnRanking(back, s);
  }

  /**
   In a rendered table exactly the header of the sort column is active, at most
   one header is, and one is exactly when the sort column is shown in the
   current view.
   */
  lemma ActiveHeaderIsSortColumn(s: StandingsState)
    requires Render(s).view.Page?
    ensures
      var hs := Render(s).view.headers;
      && (forall i | 0 <= i < |hs| :: hs[i].active <==> hs[i].id == s.valueToOrderBy)
      && (forall i, j | 0 <= i < |hs| && 0 <= j < |hs| && hs[i].active && hs[j].active :: i == j)
      && (s.valueToOrderBy in Ids(Columns(s.isPlayoffsView)) <==> exists i | 0 <= i < |hs| :: hs[i].active)
  {
    var hs := Render(s).view.headers;
    var cs := Columns(s.isPlayoffsView);
    if s.valueToOrderBy in Ids(cs) {
      var k :| 0 <= k < |cs| && Ids(cs)[k] == s.valueToOrderBy;
      assert hs[k].active;
    }
  }

  /** Switching the view leaves the ranking alone: the in-place order is the same in both views. */
  lemma ToggleKeepsRanking(s: StandingsState)
    ensures Render(ToggleView(s)).state == ToggleView(Render(s).state)
  {
  }

  /**
   Sorted by points for and switched to the playoffs view, which has no such
   column: no header is active, yet the rows keep their points-for order.
   */
  lemma PlayoffsViewHidesPointsSort(s: StandingsState)
    requires Render(s).view.Page? && s.isPlayoffsView && s.valueToOrderBy == PointsForKey
    ensures forall i | 0 <= i < |Render(s).view.headers| :: !Render(s).view.headers[i].active
    ensures
      var ranked := Render(s).state.teams;
      forall i, j | 0 <= i < j < |ranked| ::
        if s.orderDirection == Asc then ranked[i].pointsFor >= ranked[j].pointsFor
        else ranked[i].pointsFor <= ranked[j].pointsFor
  {
    ActiveHeaderIsSortColumn(s);
    assert PointsForKey !in Ids(Columns(true));
    assert Ranked(PointsForKey, s.teams);
  }

  /**
   The first table after a successful load lists the report's teams, each
   exactly once, ranked by the current sort whenever every team carries its field.
   */
  lemma LoadThenRender(s: StandingsState, r: Report)
    ensures s.error.Some? ==> Render(Load(s, Some(r))).view.ErrorMessage?
    ensures s.error.None? ==>
      var out := Render(Load(s, Some(r)));
      && out.view.Page?
      && |out.view.rows| == |r.teams|
      && multiset(out.state.teams) == multiset(r.teams)
      && (forall i | 0 <= i < |r.teams| :: out.view.rows[i] == Cells.Row(out.state.teams[i], Ids(Columns(s.isPlayoffsView))))
      && (Ranked(s.valueToOrderBy, r.teams) ==>
            forall i, j | 0 <= i < j < |r.teams| ::
              Compare(s.valueToOrderBy, s.orderDirection, out.state.teams[i], out.state.teams[j]) <= 0.0)
  {
    var out := Render(Load(s, Some(r)));
    assert |out.state.teams| == |r.teams| by {
      assert |multiset(out.state.teams)| == |multiset(r.teams)|;
    }
  }
}
