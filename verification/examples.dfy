/**
 Worked examples of the two views on small concrete leagues: the initial
 ranking of three teams, a row over a column list mixing known and unknown
 ids, and three weeks of navigation.
 */
module Examples {
  import opened Wrappers
  import opened League
  import opened Ranking
  import Sorting
  import Cells
  import Standings
  import Matchups

  const TeamA: Team := Team(1, "A", 8, 4, 1200.0, 1000.0, None, None, None, None, None, None, None)
  const TeamB: Team := Team(2, "B", 8, 4, 1150.0, 1000.0, None, None, None, None, None, None, None)
  const TeamC: Team := Team(3, "C", 9, 3, 1100.0, 1000.0, None, None, None, None, None, None, None)

  /**
   Teams A (8-4, 1200 points), B (8-4, 1150) and C (9-3, 1100), loaded in that
   order, are listed C, A, B under the initial sort: the better record first,
   then the equal records by points.
   */
  lemma InitialRankingExample()
    ensures
      var s := Standings.Load(Standings.Init(), Some(Report(1, [TeamA, TeamB, TeamC], [])));
      Standings.Render(s).state.teams == [TeamC, TeamA, TeamB]
  {
    ExampleSortSteps();
  }

  /** The three insertion steps of the example, one at a time. */
  lemma ExampleSortSteps()
    ensures Sorting.Sort(Order(RecordKey, Desc), [TeamA, TeamB, TeamC]) == [TeamC, TeamA, TeamB]
  {
    var cmp := Order(RecordKey, Desc);
    ExampleComparisons();
    ExampleSortBC();
    assert [TeamA, TeamB, TeamC][1..] == [TeamB, TeamC];
    assert [TeamC, TeamB][1..] == [TeamB];
    assert Sorting.Insert(cmp, TeamA, [TeamB]) == [TeamA, TeamB];
    assert Sorting.Insert(cmp, TeamA, [TeamC, TeamB]) == [TeamC] + Sorting.Insert(cmp, TeamA, [TeamB]);
  }

  lemma ExampleSortBC()
    ensures Sorting.Sort(Order(RecordKey, Desc), [TeamB, TeamC]) == [TeamC, TeamB]
  {
    var cmp := Order(RecordKey, Desc);
    ExampleComparisons();
    assert Sorting.Sort(cmp, [TeamC]) == [TeamC] by {
      assert [TeamC][1..] == [];
    }
    assert [TeamB, TeamC][1..] == [TeamC];
    assert Sorting.Insert(cmp, TeamB, []) == [TeamB];
    assert Sorting.Insert(cmp, TeamB, [TeamC]) == [TeamC] + Sorting.Insert(cmp, TeamB, [TeamC][1..]);
  }

  /** C's better record puts it before both; A's higher points put it before B. */
  lemma ExampleComparisons()
    ensures Order(RecordKey, Desc)(TeamB, TeamC) > 0.0
    ensures Order(RecordKey, Desc)(TeamA, TeamC) > 0.0
    ensures Order(RecordKey, Desc)(TeamA, TeamB) <= 0.0
  {
    assert Net(TeamA) == 4 && Net(TeamB) == 4 && Net(TeamC) == 6;
  }

  /** An unknown id between two known ones renders nothing; the known cells keep their order. */
  lemma MixedRowExample()
    ensures Cells.KnownIds([RecordKey, "streak", PointsForKey]) == [RecordKey, PointsForKey]
    ensures |Cells.Row(TeamA, [RecordKey, "streak", PointsForKey])| == 2
  {
    assert "streak" !in Cells.KnownColumns;
    assert Cells.KnownIds([RecordKey]) == [RecordKey];
    assert Cells.KnownIds(["streak"]) == [];
    assert Cells.KnownIds([PointsForKey]) == [PointsForKey];
    Cells.KnownIdsAppend(["streak"], [PointsForKey]);
    assert ["streak"] + [PointsForKey] == ["streak", PointsForKey];
    Cells.KnownIdsAppend([RecordKey], ["streak", PointsForKey]);
    assert [RecordKey] + ["streak", PointsForKey] == [RecordKey, "streak", PointsForKey];
  }

  /**
   Weeks 1 to 3 with current week 2: the view opens on week 2, one forward
   click shows week 3, and a second forward click is disabled and changes nothing.
   */
  lemma NavigationExample(week1: seq<Matchup>, week2: seq<Matchup>, week3: seq<Matchup>)
    ensures
      var report := Report(2, [], [WeekMatchups(1, week1), WeekMatchups(2, week2), WeekMatchups(3, week3)]);
      var s := Matchups.Load(Matchups.Init(), Some(report));
      var s1 := Matchups.WeekChange(s, "next");
      && s.selectedWeek == 2 && s.currentWeek == 2 && s.totalWeeks == 3
      && s1.selectedWeek == 3 && Matchups.NextDisabled(s1)
      && Matchups.WeekChange(s1, "next") == s1
      && Matchups.Render(s1).Page?
      && Matchups.Render(s1).body == Matchups.Grid(seq(|week3|, i requires 0 <= i < |week3| => Matchups.ShowMatchup(week3[i])))
  {
    var ms := [WeekMatchups(1, week1), WeekMatchups(2, week2), WeekMatchups(3, week3)];
    Matchups.InRangeWeekFound(ms, 3);
  }
}
