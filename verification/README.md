# Fantasy league report views — a Dafny model

This project models the client-side logic of a fantasy-league report viewer.
The viewer fetches one immutable report (teams with records, points and
pre-computed playoff odds, plus the matchups of every week) and shows it in two
views:

- **Standings** (`Standings.js`, `StandingsTableRow.js`). A sortable table of
  teams. Its view flag picks one of two fixed column schemas, and a modal shows
  one team's playoff breakdown.
- **Matchups** (`Matchups.js`). A week navigator that starts at the report's
  current week and steps back and forward within the season. It shows the
  selected week's head-to-head matchups with win-probability bars.

The Dafny modules follow that structure:

| module | file | what it holds |
|---|---|---|
| `Wrappers` | wrappers.dfy | `Option`: `None` is an absent report field (`undefined`) or an empty state slot (`null`) |
| `League` | league.dfy | `Team`, `Side`, `Matchup`, `WeekMatchups`, `Report`; the column ids; `Net` and the `t[key]` field lookup |
| `Sorting` | sorting.dfy | a stable insertion sort driven by a JavaScript-style comparator, with its sortedness, stability, idempotence and uniqueness theorems |
| `Ranking` | ranking.dfy | the standings comparator and `sortedTeams`, with the ordering lemmas for the record key and for the other keys |
| `Cells` | cells.dfy | the per-column cell dispatch of a standings row |
| `Standings` | standings.dfy | standings state, the user actions, the column schemas, one render pass |
| `Matchups` | matchups.dfy | week-navigator state, loading, stepping, the week lookup, bar colours, one render pass |
| `Examples` | examples.dfy | worked examples on small concrete leagues |

Everything is pure functions over immutable datatypes. Wins, losses and weeks
are `int`. Points and probabilities are `real`: the code only compares them, so
mathematical reals are enough. An absent metric is `None`. Digit formatting is
abstract: a `Percent(p)` cell stands for `p * 100` with one decimal and a `%`,
and a `Scaled(r)` cell for `r * 100` with one decimal and no `%`.

Points of the code's behaviour that are easy to get wrong:

- The record sort key's id is `"shortName"`, the record column's id. There is
  no separate `"record"` key (`Standings.js:80`, `:109`).
- A sort request on a new column always starts at ascending. The previous
  direction is not carried over (`Standings.js:73-75`).
- Under any key other than the record key, ascending puts the larger value
  first (`Standings.js:88-93`).
- A comparison involving an absent field yields 0, as JavaScript's `undefined`
  comparisons do. Absent values are not ranked lowest. So the model proves
  order results only for teams that all carry the sort field
  (`Ranking.Ranked`).
- On load the selected week is the report's current week, with no clamping
  (`Matchups.js:36`). The range `1 <= selectedWeek <= totalWeeks` is
  preserved by navigation when it holds, but loading does not enforce it.

`Array.prototype.sort` sorts the `teams` state array in place during each
render (`Standings.js:79`, `:154`), so each render sorts the order left by the
previous one. `Standings.Render` models this: it returns the view together with
the state whose `teams` are now in ranked order. The sort is stable, as
ECMAScript requires. `Sorting.SortedUnique` shows that for a consistent
comparator the stable result is unique. So the choice of insertion sort in the
model does not matter.

## Model

| member | source | states |
|---|---|---|
| `Ranking.Compare` | src/components/Standings/Standings.js:78-95 | Under the record key, different net wins decide: the better record comes first in `Desc` and last in `Asc`, and the result is never 0. With equal net wins, `pointsFor` decides in the same direction, and the result is 0 exactly when the points are equal. Under any other key the larger value comes first in `Asc` and the smaller in `Desc`. The result is 0 exactly when a value is absent or the values are equal. |
| `Ranking.CompareFlip` | src/components/Standings/Standings.js:80-95 | Reversing the direction negates the comparison. The primary and the tie-break comparisons reverse together, never just one of them. |
| `Ranking.CompareAntisymmetric` | src/components/Standings/Standings.js:80-95 | Swapping the two teams negates the comparison, for every key, including absent fields. |
| `Ranking.CompareTransitive` | src/components/Standings/Standings.js:80-95 | On teams that carry the sort field, "not after" is transitive, so the comparator is a total preorder. |
| `Ranking.RankedConsistent` | src/components/Standings/Standings.js:79-95 | When every team carries the key, the comparator passed to `sort` is consistent (antisymmetric and transitive) on those teams. |
| `Ranking.SortedTeams` | src/components/Standings/Standings.js:78-97 | The result is a permutation of the teams. When every team carries the key, no later team compares before an earlier one. |
| `Ranking.SortedTeamsStrictOrder` | src/components/Standings/Standings.js:79-96 | A team the comparator puts strictly before another is listed strictly before it. |
| `Ranking.RecordNetWinsDecide` | src/components/Standings/Standings.js:80-86 | Under the record key, a team with strictly more net wins is listed first in `Desc` and last in `Asc`, whatever the points. |
| `Ranking.RecordPointsBreakTies` | src/components/Standings/Standings.js:83-85 | Under the record key with equal net wins, more `pointsFor` is listed first in `Desc` and last in `Asc`. |
| `Ranking.FieldOrderInverted` | src/components/Standings/Standings.js:87-95 | Under any other key, a larger field value is listed first in `Asc` and last in `Desc`. |
| `Ranking.SortedTeamsStable` | src/components/Standings/Standings.js:79 | Teams that compare equal keep the relative order they had before the sort. |
| `Ranking.SortedTeamsIdempotent` | src/components/Standings/Standings.js:79 | Sorting the sorted teams again with the same key and direction changes nothing. |
| `Ranking.TiesFlip` | src/components/Standings/Standings.js:83-94 | Reversing the direction leaves every class of equal-comparing teams unchanged. |
| `Ranking.SortedTeamsFlipBack` | src/components/Standings/Standings.js:72-97 | The sort works in place. Sorting the ranked teams with the reversed direction and then with the original one gives back exactly the first ranked order. |
| `Sorting.SortSorted` | src/components/Standings/Standings.js:79 | Under a consistent comparator the stable sort's output is sorted. |
| `Sorting.SortStable` | src/components/Standings/Standings.js:79 | The elements tying with any `x` appear in the output in their input order. |
| `Sorting.SortIdempotent` | src/components/Standings/Standings.js:79 | Under a consistent comparator, re-sorting a sorted result changes nothing. |
| `Sorting.SortedUnique` | src/components/Standings/Standings.js:79 | Two sorted permutations of each other whose tie classes appear in the same order are equal. So the stable result does not depend on the sorting algorithm. |
| `Cells.Badge` | src/components/Standings/StandingsTableRow.js:20-30 | The streak badge is shown exactly when the streak is present and non-empty (truthy). It carries the streak text and is coloured success exactly when the streak contains `'W'`, error otherwise. |
| `Cells.CellFor` | src/components/Standings/StandingsTableRow.js:11-89 | A cell exists exactly for the seven known column ids, and an unknown id renders nothing. Only the `madePlayoffProbability` cell is clickable, and it opens this row's team. "N/A" appears exactly for an absent rating or probability, never for the record or the points. A present probability is a percentage of its own value, and a present rating is a scaled value with no `%`. Points are raw fields. The record cell shows the name, wins, losses and the streak badge. |
| `Cells.KnownIds` | src/components/Standings/StandingsTableRow.js:10-89 | An id produces a cell exactly when it is a column id the switch knows (`null` for any other renders nothing). If every id is known, they are all the columns; if none is, there are none. |
| `Cells.KnownIdsAppend` | src/components/Standings/StandingsTableRow.js:10-89 | The known ids of two lists side by side are the known ids of each, side by side. With the membership clause this fixes the result for any mix of known and unknown ids: the known ones, in column order. |
| `Cells.Row` | src/components/Standings/StandingsTableRow.js:10-91 | A row has one cell per known column, each equal to that column's dispatched cell, and every cell belongs to a column of the list. |
| `Cells.RowAppend` | src/components/Standings/StandingsTableRow.js:10-91 | The row of two column lists side by side is the two rows side by side, so cells follow column order. |
| `Cells.RowAllKnown` | src/components/Standings/StandingsTableRow.js:10-91 | When every column id is known, the row has exactly one cell per column, and cell `i` belongs to column `i`. |
| `Cells.RowClickTargets` | src/components/Standings/StandingsTableRow.js:55-59 | In any row, a cell is clickable exactly when it is the playoff cell, and its click passes this row's team. |
| `Standings.Columns` | src/components/Standings/Standings.js:107-124 | Each view has exactly five columns with distinct ids. Each starts with the `Record` column, and every id is one the cell dispatch knows. |
| `Standings.Init` | src/components/Standings/Standings.js:23-30 | The initial state sorts by the record key, descending, with no selected team, the modal closed, the standings (not playoffs) view, loading, no error and no teams. |
| `Standings.Load` | src/components/Standings/Standings.js:36-60 | A report installs its teams. A missing report records an error and keeps the teams. Loading ends either way, and sort, modal and view are untouched. |
| `Standings.SortRequest` | src/components/Standings/Standings.js:72-76 | The key becomes the requested column. The direction becomes `Desc` exactly when that column was active and `Asc`, and `Asc` otherwise, including for a new column. Nothing else changes. |
| `Standings.SortRequestTwiceOnActive` | src/components/Standings/Standings.js:72-76 | Two requests on the active column restore the original key and direction. |
| `Standings.SortRequestTwiceOnNew` | src/components/Standings/Standings.js:72-76 | Two requests on a column that was not active leave it active and `Desc`. |
| `Standings.SortRequestFlipsActive` | src/components/Standings/Standings.js:72-76 | A request on the active column flips the direction. |
| `Standings.ToggleView` | src/components/Standings/Standings.js:131 | The view button flips `isPlayoffsView` and changes nothing else. |
| `Standings.ToggleViewTwice` | src/components/Standings/Standings.js:124-131 | Toggling keeps the sort key and direction and changes the column list. Toggling twice restores the state and the columns. |
| `Standings.Open` | src/components/Standings/Standings.js:62-65 | Opening selects the given team and opens the modal, changing nothing else. |
| `Standings.Close` | src/components/Standings/Standings.js:67-70 | Closing closes the modal and clears the selection, changing nothing else. |
| `Standings.OpenThenClose` | src/components/Standings/Standings.js:62-70 | From a closed modal, opening then closing restores the state. |
| `Standings.HeaderFor` | src/components/Standings/Standings.js:139-144 | A header is active exactly on the sort column. It shows the current direction there and `Asc` elsewhere. |
| `Standings.Render` | src/components/Standings/Standings.js:99-154 | While loading the view is a spinner. After a failed load it is the error with no table. Otherwise it shows the title and headers of the current view, one row per team in ranked order, and the modal state, and the teams array is left in ranked order. |
| `Standings.ActiveHeaderIsSortColumn` | src/components/Standings/Standings.js:124-143 | In a rendered table exactly the header whose id is the sort key is active, at most one header is, and one is exactly when the sort key is a column of the current view. |
| `Standings.ToggleKeepsRanking` | src/components/Standings/Standings.js:124-154 | Switching views does not change the ranking the render leaves in place. |
| `Standings.PlayoffsViewHidesPointsSort` | src/components/Standings/Standings.js:124-154 | Sorted by points for and switched to the playoffs view, which has no such column, no header is active, yet the rows stay in points-for order: larger first under `Asc`, smaller first under `Desc`. |
| `Standings.LoadThenRender` | src/components/Standings/Standings.js:40-154 | The first table after a successful load has one row per team of the report, and the rows are a permutation of its teams, ranked by the current sort when every team carries the field. With an earlier error still set, the error is shown instead. |
| `Standings.RenderedRowsComplete` | src/components/Standings/Standings.js:154-237 | Every rendered row has five cells, cell `k` in column `k`. Only the playoff cell is clickable. |
| `Standings.RenderTwiceSameView` | src/components/Standings/Standings.js:154 | Rendering again with no user action shows the same view, although the first render sorted the teams in place. |
| `Standings.DoubleClickRestoresTable` | src/components/Standings/Standings.js:139-154 | Two clicks on the active header, each followed by a render that sorts in place, bring back exactly the original table. |
| `Examples.InitialRankingExample` | src/components/Standings/Standings.js:78-97 | Teams A (8-4, 1200 points), B (8-4, 1150) and C (9-3, 1100), loaded in that order, are listed C, A, B under the initial sort. |
| `Matchups.Init` | src/components/Matchups/Matchups.js:19-24 | Before load the selected week, the current week and the number of weeks are all 1, with no matchups, loading and no error. |
| `Matchups.Load` | src/components/Matchups/Matchups.js:32-46 | A report sets the selected week and the current week to its current week, and the number of weeks to its breakdown's length. A missing report records an error and changes nothing else but loading. |
| `Matchups.LoadInBounds` | src/components/Matchups/Matchups.js:34-37 | A report whose current week lies within its breakdown loads into the navigable range. The back arrow is then disabled exactly at week 1 and the forward arrow exactly at the last week. |
| `Matchups.LoadShowsCurrentWeek` | src/components/Matchups/Matchups.js:34-37 | After a successful load of a breakdown numbered 1, 2, ... whose current week is in range, the page opens on the current week and shows one card per matchup of that week. |
| `Matchups.WeekChange` | src/components/Matchups/Matchups.js:57-63 | `"prev"` moves back exactly one week iff the week is above 1. `"next"` moves forward exactly one week iff it is below the number of weeks. Every other case is a no-op. Only the selected week changes, and the range `[1, totalWeeks]` is preserved. |
| `Matchups.ArrowsMatchGuards` | src/components/Matchups/Matchups.js:86-99 | Each arrow is enabled exactly when its click would change the state. |
| `Matchups.StepsUndo` | src/components/Matchups/Matchups.js:57-63 | Within range, an enabled forward step is undone by a back step, and vice versa. |
| `Matchups.ClicksStayInBounds` | src/components/Matchups/Matchups.js:57-63 | After any sequence of clicks the week stays in range with no wrap-around. The week ends at most as many weeks from where it started as there were clicks, and nothing but the selected week changes. |
| `Matchups.FindWeek` | src/components/Matchups/Matchups.js:73 | The lookup answers none exactly when no entry has the week. Otherwise it returns the first entry with that week. |
| `Matchups.InRangeWeekFound` | src/components/Matchups/Matchups.js:73 | With a breakdown numbered 1, 2, ... every in-range week is found at its own position. |
| `Matchups.ProgressColor` | src/components/Matchups/Matchups.js:75-77 | A bar is `success` exactly when its own win probability is at least 0.5. |
| `Matchups.ShowSide` | src/components/Matchups/Matchups.js:111-144 | A side shows its own name, points and avatar path `/<userId>.png`, and its own win probability as both the "% WIN" figure and the bar value; the bar colour depends only on that probability. |
| `Matchups.Render` | src/components/Matchups/Matchups.js:65-155 | While loading the view is a spinner, and after a failed load it is the error. Otherwise it shows the selected week and both arrows' disabled flags. It shows "no matchups" exactly when no entry has the selected week, and otherwise one card per matchup of the first such entry. |
| `Matchups.EvenMatchupBothFavoured` | src/components/Matchups/Matchups.js:120-138 | When both sides stand at exactly 0.5, both bars are `success`. |
| `Examples.MixedRowExample` | src/components/Standings/StandingsTableRow.js:10-89 | For the columns record, `streak` and PF, the row holds the record cell and then the PF cell. |
| `Examples.NavigationExample` | src/components/Matchups/Matchups.js:34-63 | With weeks 1 to 3 and current week 2, the view opens on week 2. One forward click shows week 3's matchups, and a second one is disabled and changes nothing. |

## Left out

- Ranking.SortedTeams: promises an order only when every team carries the sort field. With some values absent, the JavaScript comparator answers 0 for an absent value against anything, so it is not a consistent order, and the engine's output is unspecified. The model still returns a permutation.
- HTTP retrieval (`src/api/api.js`) is not modelled. Its result is a parameter of type `Option<Report>`: `None` stands for the `null` that `fetchReport` returns when the request fails.
- A malformed payload is not modelled: the model's `Report` always carries its fields. In the source, a truthy body without `matchupsBreakdown` (an HTML page, say) makes `data.matchupsBreakdown.length` throw (`Matchups.js:37`), and the `catch` at `Matchups.js:41-43` shows "Error fetching data". In Standings the same body gives `setTeams(undefined)` (`Standings.js:42`), and the next render throws at `sortedTeams(undefined)` (`Standings.js:154`).
- The one-shot `useEffect`/`effectRan` fetch guard and the asynchronous loading are React lifecycle and scheduling. Only the end of the fetch is modelled (`Load`).
- A metric sent as JSON `null` is not modelled: `None` means an absent (`undefined`) field. The cells test only `!== undefined` (`StandingsTableRow.js:50`, `:67`, `:75`, `:83`), so a `null` metric renders as 0.0 or 0.0% rather than N/A, and in `sortedTeams` `null` compares as 0 (`Standings.js:88-91`).
- Digit formatting (`toFixed(1)`, `toFixed(2)`, `* 100`) is abstract. Cells and side views carry the raw value.
- Sorting by a string-valued field other than the record key, such as `streak`, is not modelled, because JavaScript would compare strings. The lookup reads such a key as absent. No header produces such a key.
- A matchup array with other than two sides is not modelled. The model's `Matchup` is a pair.
- Styling, theme colours as values, the avatar image's existence and the modal's breakdown text (`Standings.js:245-287`, `StandingsModal.js`) are display only.
- `StandingsTable.js` is not part of this model. It composes the same header rule (`Standings.HeaderFor`) and row dispatch (`Cells.Row`).
- `Navbar.js`, `App.js`, `NotFound.js` (routing and markup) and `Methodology.js` (prose about a simulation run elsewhere) are not part of this model.
