/**
 The matchups view (Matchups.js): a week navigator seeded from the report's
 current week, bounded prev/next stepping, the lookup of the selected week's
 matchups and the per-side win-probability bars.
 */
module Matchups {
  import opened Wrappers
  import opened League

  datatype MatchupsState = MatchupsState(
    matchups: seq<WeekMatchups>,
    currentWeek: int,
    selectedWeek: int,
    totalWeeks: int,
    loading: bool,
    error: Option<string>)

  /** The state when the view mounts: every week counter at 1, loading. */
  function Init(): (s: MatchupsState)
    ensures s.selectedWeek == 1 && s.currentWeek == 1 && s.totalWeeks == 1
    ensures s.loading && s.error == None && s.matchups == []
  {
    MatchupsState([], 1, 1, 1, true, None)
  }

  /**
   The end of the one fetch. A report seeds both the selected and the current
   week from its current week and counts the weeks of its breakdown; a missing
   one (the report client answers null when the request fails) records the error.
   */
  function Load(s: MatchupsState, data: Option<Report>): (s': MatchupsState)
    ensures !s'.loading
    ensures data.Some? ==>
      && s'.matchups == data.value.matchupsBreakdown
      && s'.selectedWeek == data.value.currentWeek
      && s'.currentWeek == data.value.currentWeek
      && s'.totalWeeks == |data.value.matchupsBreakdown|
      && s'.error == s.error
    ensures data.None? ==> s' == s.(loading := false, error := s'.error) && s'.error.Some?
  {
    match data
    case Some(r) =>
      s.(matchups := r.matchupsBreakdown, currentWeek := r.currentWeek,
         selectedWeek := r.currentWeek, totalWeeks := |r.matchupsBreakdown|, loading := false)
    case None => s.(error := Some("Failed to load matchups"), loading := false)
  }

  /** The selected week lies in the navigable range. */
  predicate InBounds(s: MatchupsState)
  {
    1 <= s.selectedWeek <= s.totalWeeks
  }

  /** The back arrow is disabled. */
  predicate PrevDisabled(s: MatchupsState)
  {
    s.selectedWeek <= 1
  }

  /** The forward arrow is disabled. */
  predicate NextDisabled(s: MatchupsState)
  {
    s.selectedWeek >= s.totalWeeks
  }

  /**
   An arrow click: `"prev"` steps back one week unless at week 1 or below,
   `"next"` steps forward one week unless at the last week or beyond, and any
   other direction does nothing. Only the selected week ever changes.
   */
  function WeekChange(s: MatchupsState, direction: string): (s': MatchupsState)
    ensures s' == s.(selectedWeek := s'.selectedWeek)
    ensures direction == "prev" ==>
      (if s.selectedWeek > 1 then s'.selectedWeek == s.selectedWeek - 1 else s' == s)
    ensures direction == "next" ==>
      (if s.selectedWeek < s.totalWeeks then s'.selectedWeek == s.selectedWeek + 1 else s' == s)
    ensures direction != "prev" && direction != "next" ==> s' == s
    ensures InBounds(s) ==> InBounds(s')
  {
    if direction == "prev" && s.selectedWeek > 1 then s.(selectedWeek := s.selectedWeek - 1)
    else if direction == "next" && s.selectedWeek < s.totalWeeks then s.(selectedWeek := s.selectedWeek + 1)
    else s
  }

  /** An arrow is enabled exactly when its click would move the selected week. */
  lemma ArrowsMatchGuards(s: MatchupsState)
    ensures !PrevDisabled(s) <==> WeekChange(s, "prev") != s
    ensures !NextDisabled(s) <==> WeekChange(s, "next") != s
  {
  }

  /** Stepping forward and then back returns to the same week; so does back then forward. */
  lemma StepsUndo(s: MatchupsState)
    requires InBounds(s)
    ensures !NextDisabled(s) ==> WeekChange(WeekChange(s, "next"), "prev") == s
    ensures !PrevDisabled(s) ==> WeekChange(WeekChange(s, "prev"), "next") == s
  {
  }

  /** Clicks applied one after another. */
  function Clicks(s: MatchupsState, directions: seq<string>): MatchupsState
    decreases |directions|
  {
    if directions == [] then s else Clicks(WeekChange(s, directions[0]), directions[1..])
  }

  /**
   However many arrows are clicked, the week never leaves the navigable range,
   never wraps, and the current week and the number of weeks never change.
   */
  lemma {:induction false} ClicksStayInBounds(s: MatchupsState, directions: seq<string>)
    requires InBounds(s)
    ensures InBounds(Clicks(s, directions))
    ensures Clicks(s, directions) == s.(selectedWeek := Clicks(s, directions).selectedWeek)
    ensures s.selectedWeek - |directions| <= Clicks(s, directions).selectedWeek <= s.selectedWeek + |directions|
    decreases |directions|
  {
    if directions != [] {
      ClicksStayInBounds(WeekChange(s, directions[0]), directions[1..]);
    }
  }

  /** `matchups.find(week => week.week === w)`: the first entry for week `w`, if any. */
  function FindWeek(ms: seq<WeekMatchups>, w: int): (r: Option<WeekMatchups>)
    ensures r.None? <==> forall i | 0 <= i < |ms| :: ms[i].week != w
    ensures r.Some? ==> exists i | 0 <= i < |ms| :: ms[i] == r.value && forall j | 0 <= j < i :: ms[j].week != w
    ensures r.Some? ==> r.value.week == w
  {
    if ms == [] then None
    else if ms[0].week == w then Some(ms[0])
    else
      var r := FindWeek(ms[1..], w);
      assert r.Some? ==> exists i | 0 <= i < |ms| :: ms[i] == r.value && forall j | 0 <= j < i :: ms[j].week != w by {
        if r.Some? {
          var k :| 0 <= k < |ms[1..]| && ms[1..][k] == r.value && forall j | 0 <= j < k :: ms[1..][j].week != w;
          assert ms[k + 1] == r.value;
          assert forall j | 0 <= j < k + 1 :: ms[j].week != w by {
            forall j | 0 <= j < k + 1 ensures ms[j].week != w {
              if j > 0 {
                assert ms[j] == ms[1..][j - 1];
              }
            }
          }
        }
      }
      r
  }

  /** A breakdown numbered 1, 2, ... in order. */
  predicate NumberedWeeks(ms: seq<WeekMatchups>)
  {
    forall i | 0 <= i < |ms| :: ms[i].week == i + 1
  }

  /**
   With a numbered breakdown every in-range week is found at its own position,
   so navigation within bounds never reaches the "no matchups" state.
   */
  lemma InRangeWeekFound(ms: seq<WeekMatchups>, w: int)
    requires NumberedWeeks(ms) && 1 <= w <= |ms|
    ensures FindWeek(ms, w) == Some(ms[w - 1])
  {
    var r := FindWeek(ms, w);
    assert ms[w - 1].week == w;
    var i :| 0 <= i < |ms| && ms[i] == r.value && forall j | 0 <= j < i :: ms[j].week != w;
    assert i == w - 1;
  }

  /** A report whose current week lies within its breakdown loads into the navigable range. */
  lemma LoadInBounds(s: MatchupsState, r: Report)
    requires 1 <= r.currentWeek <= |r.matchupsBreakdown|
    ensures InBounds(Load(s, Some(r)))
    ensures PrevDisabled(Load(s, Some(r))) <==> r.currentWeek == 1
    ensures NextDisabled(Load(s, Some(r))) <==> r.currentWeek == |r.matchupsBreakdown|
  {
  }

  /**
   After a successful load of a numbered breakdown whose current week is in
   range, the page opens on the current week and shows exactly that week's
   matchups.
   */
  lemma LoadShowsCurrentWeek(s: MatchupsState, r: Report)
    requires s.error.None?
    requires NumberedWeeks(r.matchupsBreakdown) && 1 <= r.currentWeek <= |r.matchupsBreakdown|
    ensures
      var wm := r.matchupsBreakdown[r.currentWeek - 1];
      var v := Render(Load(s, Some(r)));
      && v.Page? && v.week == r.currentWeek
      && v.body.Grid? && |v.body.cards| == |wm.matchups|
      && forall i | 0 <= i < |wm.matchups| :: v.body.cards[i] == ShowMatchup(wm.matchups[i])
  {
    InRangeWeekFound(r.matchupsBreakdown, r.currentWeek);
  }

  /** The colour of a win-probability bar. */
  datatype BarColor = Success | Secondary

  /** Each side's bar is green (favoured) when its own probability is at least one half. */
  function ProgressColor(winProbability: real): (c: BarColor)
    ensures c == Success <==> winProbability >= 0.5
  {
    if winProbability >= 0.5 then Success else Secondary
  }

  /** A side as drawn: name, avatar path `/<userId>.png`, probability, bar colour, points. */
  datatype SideView = SideView(shortName: string, avatar: string, winProbability: real, color: BarColor, totalPoints: real)

  datatype MatchupCard = MatchupCard(left: SideView, right: SideView)

  datatype WeekBody = Grid(cards: seq<MatchupCard>) | NoMatchups

  datatype MatchupsView =
    | Spinner
    | ErrorMessage(message: string)
    | Page(week: int, prevDisabled: bool, nextDisabled: bool, body: WeekBody)

  function ShowSide(side: Side): (v: SideView)
    ensures v.shortName == side.shortName && v.totalPoints == side.totalPoints
    ensures v.color == Success <==> side.winProbability >= 0.5
    ensures v.winProbability == side.winProbability
    ensures v.avatar == "/" + side.userId + ".png"
  {
    SideView(side.shortName, "/" + side.userId + ".png", side.winProbability,
             ProgressColor(side.winProbability), side.totalPoints)
  }

  function ShowMatchup(m: Matchup): MatchupCard
  {
    MatchupCard(ShowSide(m.home), ShowSide(m.away))
  }

  /**
   One render: a spinner while loading, the error after a failed load, and
   otherwise the selected week with both arrows' disabled flags and either a
   grid of that week's matchups or the "no matchups" message.
   */
  function Render(s: MatchupsState): (v: MatchupsView)
    ensures s.loading ==> v == Spinner
    ensures !s.loading && s.error.Some? ==> v.ErrorMessage?
    ensures v.Page? <==> !s.loading && s.error.None?
    ensures v.Page? ==>
      && v.week == s.selectedWeek
      && v.prevDisabled == PrevDisabled(s)
      && v.nextDisabled == NextDisabled(s)
      && (v.body.NoMatchups? <==> forall i | 0 <= i < |s.matchups| :: s.matchups[i].week != s.selectedWeek)
    ensures v.Page? && v.body.Grid? ==>
      var wm := FindWeek(s.matchups, s.selectedWeek).value;
      && |v.body.cards| == |wm.matchups|
      && forall i | 0 <= i < |wm.matchups| :: v.body.cards[i] == ShowMatchup(wm.matchups[i])
  {
    if s.loading then Spinner
    else if s.error.Some? then ErrorMessage("Error: " + s.error.value)
    else
      var body := match FindWeek(s.matchups, s.selectedWeek)
        case Some(wm) => Grid(seq(|wm.matchups|, i requires 0 <= i < |wm.matchups| => ShowMatchup(wm.matchups[i])))
        case None => NoMatchups;
      Page(s.selectedWeek, PrevDisabled(s), NextDisabled(s), body)
  }

  /** At exactly one half both sides of a matchup are shown as favoured. */
  lemma EvenMatchupBothFavoured(m: Matchup)
    requires m.home.winProbability == 0.5 && m.away.winProbability == 0.5
    ensures ShowMatchup(m).left.color == Success && ShowMatchup(m).right.color == Success
  {
  }
}
