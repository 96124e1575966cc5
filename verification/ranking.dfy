/**
 The standings comparator and the sort it drives (`sortedTeams` in
 Standings.js). The record key ranks by net wins with `pointsFor` as the
 tie-break, both in the requested direction; any other key compares the
 named field with its sense inverted: under `Asc` the larger value comes first.
 The sort is `Array.prototype.sort`, which is stable; it is modelled as a
 stable insertion sort that returns a permutation of its input.
 */
module Ranking {
  import opened Wrappers
  import opened League
  import Sorting

  datatype Direction = Asc | Desc

  function Flip(d: Direction): Direction
  {
    if d == Asc then Desc else Asc
  }

  /**
   The comparator passed to `sort`: a negative result places `a` before `b`,
   a positive one `b` before `a`, and zero keeps their relative order.
   A non-record comparison involving an absent field reads `undefined`, whose
   comparisons are all false, so it yields zero.
   */
  function Compare(key: ColumnId, dir: Direction, a: Team, b: Team): (c: real)
    // record key, different net wins: the better record first under Desc, last under Asc
    ensures key == RecordKey && Net(a) != Net(b) ==>
      (c < 0.0 <==> (if dir == Asc then Net(a) < Net(b) else Net(a) > Net(b))) && c != 0.0
    // record key, equal net wins: pointsFor decides in the same direction
    ensures key == RecordKey && Net(a) == Net(b) ==>
      (c < 0.0 <==> (if dir == Asc then a.pointsFor < b.pointsFor else a.pointsFor > b.pointsFor))
      && (c == 0.0 <==> a.pointsFor == b.pointsFor)
    // any other key: the larger value first under Asc, the smaller first under Desc
    ensures key != RecordKey ==>
      (c < 0.0 <==>
        FieldValue(a, key).Some? && FieldValue(b, key).Some? &&
        (if dir == Asc then FieldValue(a, key).value > FieldValue(b, key).value
         else FieldValue(a, key).value < FieldValue(b, key).value))
    ensures key != RecordKey ==>
      (c == 0.0 <==>
        FieldValue(a, key).None? || FieldValue(b, key).None? ||
        FieldValue(a, key).value == FieldValue(b, key).value)
  {
    if key == RecordKey then
      var aRecord := Net(a);
      var bRecord := Net(b);
      if aRecord == bRecord then
        (if dir == Asc then a.pointsFor - b.pointsFor else b.pointsFor - a.pointsFor)
      else
        (if dir == Asc then (aRecord - bRecord) as real else (bRecord - aRecord) as real)
    else
      match (FieldValue(a, key), FieldValue(b, key))
      case (Some(va), Some(vb)) =>
        if vb < va then (if dir == Asc then -1.0 else 1.0)
        else if vb > va then (if dir == Asc then 1.0 else -1.0)
        else 0.0
      case _ => 0.0
  }

  /** Reversing the direction reverses the primary and the tie-break comparison together. */
  lemma CompareFlip(key: ColumnId, dir: Direction, a: Team, b: Team)
    ensures Compare(key, Flip(dir), a, b) == -Compare(key, dir, a, b)
  {
  }

  /** Swapping the operands negates the comparison. */
  lemma CompareAntisymmetric(key: ColumnId, dir: Direction, a: Team, b: Team)
    ensures Compare(key, dir, a, b) == -Compare(key, dir, b, a)
  {
  }

  /** A team the comparator can place consistently under `key`. */
  predicate Comparable(key: ColumnId, t: Team)
  {
    key == RecordKey || FieldValue(t, key).Some?
  }

  /** Every team of `s` carries the sort field (always true for the record key). */
  predicate Ranked(key: ColumnId, s: seq<Team>)
  {
    forall t | t in s :: Comparable(key, t)
  }

  lemma CompareTransitive(key: ColumnId, dir: Direction, a: Team, b: Team, c: Team)
    requires Comparable(key, a) && Comparable(key, b) && Comparable(key, c)
    requires Compare(key, dir, a, b) <= 0.0 && Compare(key, dir, b, c) <= 0.0
    ensures Compare(key, dir, a, c) <= 0.0
  {
  }

  /** The comparator for one (key, direction) pair, as the function `sort` receives. */
  function Order(key: ColumnId, dir: Direction): (Team, Team) -> real
  {
    (a: Team, b: Team) => Compare(key, dir, a, b)
  }

  /** On ranked teams the comparator is a total preorder, as `sort` needs. */
  lemma RankedConsistent(key: ColumnId, dir: Direction, s: seq<Team>)
    requires Ranked(key, s)
    ensures Sorting.Consistent(Order(key, dir), s)
  {
    var cmp := Order(key, dir);
    forall a, b | a in s && b in s ensures Sorting.AntisymmetricAt(cmp, a, b) {
      CompareAntisymmetric(key, dir, a, b);
    }
    forall a, b, c | a in s && b in s && c in s ensures Sorting.TransitiveAt(cmp, a, b, c) {
      if cmp(a, b) <= 0.0 && cmp(b, c) <= 0.0 {
        CompareTransitive(key, dir, a, b, c);
      }
    }
  }

  /**
   `sortedTeams(teams)` under the current key and direction: a permutation of
   the teams, ordered by the comparator whenever every team carries the key.
   */
  function SortedTeams(key: ColumnId, dir: Direction, teams: seq<Team>): (r: seq<Team>)
    ensures multiset(r) == multiset(teams)
    ensures Ranked(key, teams) ==>
      forall i, j | 0 <= i < j < |r| :: Compare(key, dir, r[i], r[j]) <= 0.0
  {
    var r := Sorting.Sort(Order(key, dir), teams);
    assert Ranked(key, teams) ==> Sorting.Sorted(Order(key, dir), r) by {
      if Ranked(key, teams) {
        RankedConsistent(key, dir, teams);
        Sorting.SortSorted(Order(key, dir), teams);
      }
    }
    r
  }

  /** Teams that compare equal keep the order they had before the sort. */
  lemma SortedTeamsStable(key: ColumnId, dir: Direction, x: Team, teams: seq<Team>)
    requires Ranked(key, [x] + teams)
    ensures Sorting.Ties(Order(key, dir), x, SortedTeams(key, dir, teams)) == Sorting.Ties(Order(key, dir), x, teams)
  {
    RankedConsistent(key, dir, [x] + teams);
    Sorting.SortStable(Order(key, dir), x, teams);
  }

  /** Sorting the sorted teams again with the same key and direction changes nothing. */
  lemma SortedTeamsIdempotent(key: ColumnId, dir: Direction, teams: seq<Team>)
    requires Ranked(key, teams)
    ensures SortedTeams(key, dir, SortedTeams(key, dir, teams)) == SortedTeams(key, dir, teams)
  {
    RankedConsistent(key, dir, teams);
    Sorting.SortIdempotent(Order(key, dir), teams);
  }

  /** A team the comparator places strictly before another ends up strictly before it. */
  lemma SortedTeamsStrictOrder(key: ColumnId, dir: Direction, teams: seq<Team>, i: int, j: int)
    requires Ranked(key, teams)
    requires 0 <= i < |teams| && 0 <= j < |teams|
    requires Compare(key, dir, SortedTeams(key, dir, teams)[i], SortedTeams(key, dir, teams)[j]) < 0.0
    ensures i < j
  {
    var r := SortedTeams(key, dir, teams);
    CompareAntisymmetric(key, dir, r[i], r[j]);
  }

  /** Under the record key a strictly better record comes first in Desc and last in Asc, whatever the points. */
  lemma RecordNetWinsDecide(dir: Direction, teams: seq<Team>, i: int, j: int)
    requires 0 <= i < |teams| && 0 <= j < |teams|
    requires Net(SortedTeams(RecordKey, dir, teams)[i]) > Net(SortedTeams(RecordKey, dir, teams)[j])
    ensures dir == Desc ==> i < j
    ensures dir == Asc ==> j < i
  {
    if dir == Desc {
      SortedTeamsStrictOrder(RecordKey, dir, teams, i, j);
    } else {
      SortedTeamsStrictOrder(RecordKey, dir, teams, j, i);
    }
  }

  /** Under the record key with equal net wins, more points come first in Desc and last in Asc. */
  lemma RecordPointsBreakTies(dir: Direction, teams: seq<Team>, i: int, j: int)
    requires 0 <= i < |teams| && 0 <= j < |teams|
    requires Net(SortedTeams(RecordKey, dir, teams)[i]) == Net(SortedTeams(RecordKey, dir, teams)[j])
    requires SortedTeams(RecordKey, dir, teams)[i].pointsFor > SortedTeams(RecordKey, dir, teams)[j].pointsFor
    ensures dir == Desc ==> i < j
    ensures dir == Asc ==> j < i
  {
    if dir == Desc {
      SortedTeamsStrictOrder(RecordKey, dir, teams, i, j);
    } else {
      SortedTeamsStrictOrder(RecordKey, dir, teams, j, i);
    }
  }

  /** Both teams carry `key` and `a`'s value is the larger. */
  predicate FieldGreater(key: ColumnId, a: Team, b: Team)
  {
    FieldValue(a, key).Some? && FieldValue(b, key).Some? && FieldValue(a, key).value > FieldValue(b, key).value
  }

  /** Under any other key the larger value comes first in Asc and last in Desc. */
  lemma FieldOrderInverted(key: ColumnId, dir: Direction, teams: seq<Team>, i: int, j: int)
    requires key != RecordKey && Ranked(key, teams)
    requires 0 <= i < |teams| && 0 <= j < |teams|
    requires FieldGreater(key, SortedTeams(key, dir, teams)[i], SortedTeams(key, dir, teams)[j])
    ensures dir == Asc ==> i < j
    ensures dir == Desc ==> j < i
  {
    if dir == Asc {
      SortedTeamsStrictOrder(key, dir, teams, i, j);
    } else {
      SortedTeamsStrictOrder(key, dir, teams, j, i);
    }
  }

  /** Reversing the direction leaves every tie class unchanged. */
  lemma {:induction false} TiesFlip(key: ColumnId, dir: Direction, x: Team, s: seq<Team>)
    ensures Sorting.Ties(Order(key, Flip(dir)), x, s) == Sorting.Ties(Order(key, dir), x, s)
  {
    if s != [] {
      CompareFlip(key, dir, s[0], x);
      TiesFlip(key, dir, x, s[1..]);
    }
  }

  lemma RankedExtend(key: ColumnId, x: Team, s: seq<Team>, t: seq<Team>)
    requires Ranked(key, s) && x in s && multiset(t) == multiset(s)
    ensures Ranked(key, [x] + t)
  {
    forall u | u in [x] + t ensures Comparable(key, u) {
      if u != x {
        assert u in multiset(t);
      }
    }
  }

  /**
   Sorting sorts the teams array in place, so every re-render sorts the previous
   order. Reversing the direction and then restoring it still gives back exactly
   the order the first sort produced.
   */
  lemma SortedTeamsFlipBack(key: ColumnId, dir: Direction, teams: seq<Team>)
    requires Ranked(key, teams)
    ensures SortedTeams(key, dir, SortedTeams(key, Flip(dir), teams)) == SortedTeams(key, dir, teams)
  {
    var m := SortedTeams(key, Flip(dir), teams);
    var p := SortedTeams(key, dir, teams);
    var q := SortedTeams(key, dir, m);
    var cmp, rev := Order(key, dir), Order(key, Flip(dir));
    assert Ranked(key, m) by {
      forall t | t in m ensures Comparable(key, t) {
        assert t in multiset(m);
      }
    }
    assert Ranked(key, p) by {
      forall t | t in p ensures Comparable(key, t) {
        assert t in multiset(p);
      }
    }
    RankedConsistent(key, dir, p);
    forall x | x in p
      ensures Sorting.Ties(cmp, x, p) == Sorting.Ties(cmp, x, q)
    {
      assert x in multiset(teams);
      RankedExtend(key, x, teams, teams);
      RankedExtend(key, x, teams, m);
      SortedTeamsStable(key, dir, x, teams);
      SortedTeamsStable(key, dir, x, m);
      SortedTeamsStable(key, Flip(dir), x, teams);
      TiesFlip(key, dir, x, m);
      TiesFlip(key, dir, x, teams);
    }
    Sorting.SortedUnique(cmp, p, q);
  }
}
