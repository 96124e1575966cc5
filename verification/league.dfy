/**
 The immutable report snapshot the report service returns: teams with their
 record, points and pre-computed playoff metrics, and the matchups of every week.
 Absent metrics (JavaScript `undefined`) are `None`.
 */
module League {
  import opened Wrappers

  /** A column id of the standings table, as the JavaScript string it is. */
  type ColumnId = string

  /** The record column; its id is the field name `shortName`, and sorting by it ranks by record. */
  const RecordKey: ColumnId := "shortName"
  const PointsForKey: ColumnId := "pointsFor"
  const PointsAgainstKey: ColumnId := "pointsAgainst"
  const OverallRatingKey: ColumnId := "overallRating"
  const MadePlayoffKey: ColumnId := "madePlayoffProbability"
  const ChampionshipKey: ColumnId := "championshipProbability"
  const LoserBowlKey: ColumnId := "loserBowlProbability"

  datatype Team = Team(
    rosterId: int,
    shortName: string,
    wins: int,
    losses: int,
    pointsFor: real,
    pointsAgainst: real,
    streak: Option<string>,
    overallRating: Option<real>,
    madePlayoffProbability: Option<real>,
    championshipProbability: Option<real>,
    loserBowlProbability: Option<real>,
    madePlayoffFromRecordProbability: Option<real>,
    madePlayoffFromJordanRuleProbability: Option<real>)

  /** One side of a head-to-head matchup. */
  datatype Side = Side(userId: string, shortName: string, totalPoints: real, winProbability: real)

  /** A matchup is stored as a two-element array; position 0 renders left, 1 right. */
  datatype Matchup = Matchup(home: Side, away: Side)

  datatype WeekMatchups = WeekMatchups(week: int, matchups: seq<Matchup>)

  datatype Report = Report(currentWeek: int, teams: seq<Team>, matchupsBreakdown: seq<WeekMatchups>)

  /** Net wins, the primary ranking signal of the record key. */
  function Net(t: Team): int
  {
    t.wins - t.losses
  }

  /**
   The value `t[key]` a non-record sort reads: the team's numeric field of that
   name, or `None` where JavaScript would read `undefined`.
   */
  function FieldValue(t: Team, key: ColumnId): Option<real>
  {
    match key
    case "pointsFor" => Some(t.pointsFor)
    case "pointsAgainst" => Some(t.pointsAgainst)
    case "overallRating" => t.overallRating
    case "madePlayoffProbability" => t.madePlayoffProbability
    case "championshipProbability" => t.championshipProbability
    case "loserBowlProbability" => t.loserBowlProbability
    case "madePlayoffFromRecordProbability" => t.madePlayoffFromRecordProbability
    case "madePlayoffFromJordanRuleProbability" => t.madePlayoffFromJordanRuleProbability
    case "wins" => Some(t.wins as real)
    case "losses" => Some(t.losses as real)
    case "rosterId" => Some(t.rosterId as real)
    case _ => None
  }
}
