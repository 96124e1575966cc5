/**
 The per-column cell dispatch of a standings row (StandingsTableRow.js, and
 the identical inline switch in Standings.js). Digit formatting is abstract:
 a `Percent(p)` cell shows `p * 100` to one decimal followed by `%`, a
 `Scaled(r)` cell shows `r * 100` to one decimal with no `%`.
 */
module Cells {
  import opened Wrappers
  import opened League

  /** The theme colour of the streak badge. */
  datatype StreakColor = Success | Error

  /** The ` (W3)`-style badge after a team's record. */
  datatype StreakBadge = StreakBadge(text: string, color: StreakColor)

  datatype CellContent =
    | RecordCell(name: string, wins: int, losses: int, streak: Option<StreakBadge>)
    | Raw(value: real)
    | Scaled(value: real)
    | Percent(value: real)
    | NotAvailable

  /** A rendered cell: its column, its content and the team its click opens, if it is clickable. */
  datatype Cell = Cell(column: ColumnId, content: CellContent, onClick: Option<Team>)

  /** The column ids the switch knows; any other id renders nothing. */
  const KnownColumns: set<ColumnId> :=
    {RecordKey, PointsForKey, PointsAgainstKey, OverallRatingKey, MadePlayoffKey, ChampionshipKey, LoserBowlKey}

  /** The columns showing an optional metric as a percentage. */
  const ProbabilityColumns: set<ColumnId> := {MadePlayoffKey, ChampionshipKey, LoserBowlKey}

  /** The optional metric behind a column, if the column shows one. */
  function Metric(t: Team, id: ColumnId): Option<real>
  {
    if id == OverallRatingKey then t.overallRating
    else if id == MadePlayoffKey then t.madePlayoffProbability
    else if id == ChampionshipKey then t.championshipProbability
    else if id == LoserBowlKey then t.loserBowlProbability
    else None
  }

  /** `'W' in s`, JavaScript's `s.includes('W')`. */
  predicate ContainsWin(s: string)
  {
    exists i | 0 <= i < |s| :: s[i] == 'W'
  }

  /**
   The streak badge: shown only for a truthy (present, non-empty) streak,
   coloured success when the streak mentions a win and error otherwise.
   */
  function Badge(streak: Option<string>): (b: Option<StreakBadge>)
    ensures b.Some? <==> streak.Some? && streak.value != ""
    ensures b.Some? ==> b.value.text == streak.value
    ensures b.Some? ==> (b.value.color == Success <==> ContainsWin(streak.value))
  {
    match streak
    case Some(s) =>
      if s == "" then None
      else Some(StreakBadge(s, if 'W' in s then Success else Error))
    case None => None
  }

  /** An optional metric as a percentage cell, or "N/A" when absent. */
  function PercentOrNA(v: Option<real>): CellContent
  {
    match v
    case Some(p) => Percent(p)
    case None => NotAvailable
  }

  /** The cell the switch renders for `team` in column `id`; `None` for an unknown id. */
  function CellFor(team: Team, id: ColumnId): (c: Option<Cell>)
    ensures c.Some? <==> id in KnownColumns
    ensures c.Some? ==> c.value.column == id
    // only the playoff cell is clickable, and it opens this row's team
    ensures c.Some? ==> (c.value.onClick.Some? <==> id == MadePlayoffKey)
    ensures c.Some? && c.value.onClick.Some? ==> c.value.onClick.value == team
    // "N/A" exactly for an absent optional metric, never for record or points
    ensures c.Some? ==> (c.value.content == NotAvailable <==> Metric(team, id).None? && id !in {RecordKey, PointsForKey, PointsAgainstKey})
    // a present probability shows as a percentage of its own value, the rating as a scaled value
    ensures c.Some? && id in ProbabilityColumns && Metric(team, id).Some? ==> c.value.content == Percent(Metric(team, id).value)
    ensures c.Some? && id == OverallRatingKey && Metric(team, id).Some? ==> c.value.content == Scaled(Metric(team, id).value)
    ensures c.Some? && c.value.content.Percent? ==> id in ProbabilityColumns
    // points render raw, with no absence substitution
    ensures c.Some? && id == PointsForKey ==> c.value.content == Raw(team.pointsFor)
    ensures c.Some? && id == PointsAgainstKey ==> c.value.content == Raw(team.pointsAgainst)
    ensures c.Some? && id == RecordKey ==>
      c.value.content == RecordCell(team.shortName, team.wins, team.losses, Badge(team.streak))
  {
    match id
    case "shortName" =>
      Some(Cell(id, RecordCell(team.shortName, team.wins, team.losses, Badge(team.streak)), None))
    case "pointsFor" => Some(Cell(id, Raw(team.pointsFor), None))
    case "pointsAgainst" => Some(Cell(id, Raw(team.pointsAgainst), None))
    case "overallRating" =>
      Some(Cell(id, match team.overallRating { case Some(r) => Scaled(r) case None => NotAvailable }, None))
    case "madePlayoffProbability" => Some(Cell(id, PercentOrNA(team.madePlayoffProbability), Some(team)))
    case "championshipProbability" => Some(Cell(id, PercentOrNA(team.championshipProbability), None))
    case "loserBowlProbability" => Some(Cell(id, PercentOrNA(team.loserBowlProbability), None))
    case _ => None
  }

  /** The ids of `columns` the switch knows, in column order. */
  function KnownIds(columns: seq<ColumnId>): (ids: seq<ColumnId>)
    ensures |ids| <= |columns|
    ensures forall i | 0 <= i < |ids| :: ids[i] in KnownColumns && ids[i] in columns
    ensures (forall i | 0 <= i < |columns| :: columns[i] in KnownColumns) ==> ids == columns
    ensures (forall i | 0 <= i < |columns| :: columns[i] !in KnownColumns) ==> ids == []
    ensures forall c :: c in ids <==> c in columns && c in KnownColumns
  {
    if columns == [] then []
    else
      assert columns == [columns[0]] + columns[1..];
      (if columns[0] in KnownColumns then [columns[0]] else []) + KnownIds(columns[1..])
  }

  /**
   The row `columns.map(...)` renders: one cell per known column, in column
   order; an unknown id contributes nothing.
   */
  function Row(team: Team, columns: seq<ColumnId>): (r: seq<Cell>)
    ensures |r| == |KnownIds(columns)|
    ensures forall i | 0 <= i < |r| :: Some(r[i]) == CellFor(team, KnownIds(columns)[i])
    ensures forall i | 0 <= i < |r| :: r[i].column in columns
  {
    var ids := KnownIds(columns);
    seq(|ids|, i requires 0 <= i < |ids| => CellFor(team, ids[i]).value)
  }

  /**
   Filtering splits over concatenation, so the known ids of any list keep the
   order they have in it: with the membership clause of `KnownIds`, this pins
   the result for mixed lists of known and unknown ids.
   */
  lemma {:induction false} KnownIdsAppend(a: seq<ColumnId>, b: seq<ColumnId>)
    ensures KnownIds(a + b) == KnownIds(a) + KnownIds(b)
  {
    if a != [] {
      assert (a + b)[1..] == a[1..] + b;
      KnownIdsAppend(a[1..], b);
    } else {
      assert a + b == b;
    }
  }

  /** The row of two column lists side by side is the two rows side by side. */
  lemma RowAppend(team: Team, a: seq<ColumnId>, b: seq<ColumnId>)
    ensures Row(team, a + b) == Row(team, a) + Row(team, b)
  {
    KnownIdsAppend(a, b);
    var ids, ia, ib := KnownIds(a + b), KnownIds(a), KnownIds(b);
    var r, ra, rb := Row(team, a + b), Row(team, a), Row(team, b);
    forall i | 0 <= i < |r| ensures r[i] == (ra + rb)[i] {
      assert Some(r[i]) == CellFor(team, ids[i]);
      if i < |ra| {
        assert Some(ra[i]) == CellFor(team, ia[i]);
      } else {
        assert Some(rb[i - |ra|]) == CellFor(team, ib[i - |ra|]);
      }
    }
  }

  /** When every id is known there is exactly one cell per column, in column order. */
  lemma RowAllKnown(team: Team, columns: seq<ColumnId>)
    requires forall i | 0 <= i < |columns| :: columns[i] in KnownColumns
    ensures |Row(team, columns)| == |columns|
    ensures forall i | 0 <= i < |columns| :: Row(team, columns)[i].column == columns[i]
  {
  }

  /** Every row has its playoff cell (if any) open the modal for this row's team, and no other cell does. */
  lemma RowClickTargets(team: Team, columns: seq<ColumnId>, i: int)
    requires 0 <= i < |Row(team, columns)|
    ensures Row(team, columns)[i].onClick.Some? <==> Row(team, columns)[i].column == MadePlayoffKey
    ensures Row(team, columns)[i].onClick.Some? ==> Row(team, columns)[i].onClick.value == team
  {
    var r := Row(team, columns);
    assert Some(r[i]) == CellFor(team, KnownIds(columns)[i]);
  }
}
