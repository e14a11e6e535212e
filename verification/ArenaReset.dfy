/** The season reset of the arena ranking: every sort key is rewritten in place, rank by rank. */
module ArenaReset {
  import opened Options
  import opened RankLists
  import opened RankOrder
  import opened SkipLists

  /** One row of the division table. */
  datatype Division = Division(scoreMin: int, scoreMax: int, newSeasonScore: int)

  /** The first division whose range holds the score. */
  function GetByScore(table: seq<Division>, score: int): Option<Division> {
    if table == [] then None
    else if table[0].scoreMin <= score && table[0].scoreMax >= score then Some(table[0])
    else GetByScore(table[1..], score)
  }

  /** The key a row at position `k` of `n` gets with a new score. */
  function NewKey(d: RankData, score: int, now: int, n: nat, k: nat): RankData {
    d.(value := score, updateTime := now - (n - (k + 1)))
  }

  /** What the reset makes of the row at rank `k + 1` of `n`. */
  function ResetRow(table: seq<Division>, now: int, n: nat, k: nat, d: RankData): RankData {
    match GetByScore(table, d.value)
    case None => d
    case Some(division) => NewKey(d, division.newSeasonScore, now, n, k)
  }

  ghost function ResetRows(table: seq<Division>, now: int, d: seq<RankData>): (r: seq<RankData>)
    ensures |r| == |d|
    ensures forall k | 0 <= k < |d| :: r[k] == ResetRow(table, now, |d|, k, d[k])
  {
    seq(|d|, k requires 0 <= k < |d| => ResetRow(table, now, |d|, k, d[k]))
  }

  /** A score's division is the first in the table whose bounds, both included, hold it. */
  lemma {:induction false} DivisionIsFirst(table: seq<Division>, score: int, i: nat)
    requires i <= |table|
    requires forall j | 0 <= j < i :: score < table[j].scoreMin || table[j].scoreMax < score
    requires i < |table| ==> table[i].scoreMin <= score <= table[i].scoreMax
    ensures GetByScore(table, score) == if i < |table| then Some(table[i]) else None
  {
    if i > 0 {
      assert forall j | 0 <= j < i - 1 :: table[1..][j] == table[j + 1];
      DivisionIsFirst(table[1..], score, i - 1);
    }
  }

  /** Rows that get new keys are spaced as their ranks are: the last of all gets `now`, each a second for every row behind. */
  lemma ResetTimes(table: seq<Division>, now: int, d: seq<RankData>, a: nat, b: nat)
    requires a < |d| && b < |d| && GetByScore(table, d[a].value).Some? && GetByScore(table, d[b].value).Some?
    ensures var r := ResetRows(table, now, d);
      && r[b].updateTime - r[a].updateTime == b - a && (a == |d| - 1 ==> r[a].updateTime == now)
      && r[a].value == GetByScore(table, d[a].value).value.newSeasonScore && r[a].playerId == d[a].playerId
  {
  }

  /** Every score on the list has a division. */
  ghost predicate Covered(table: seq<Division>, d: seq<RankData>) {
    forall k | 0 <= k < |d| :: GetByScore(table, d[k].value).Some?
  }

  /** No player's new score exceeds that of a player ranked higher. */
  ghost predicate ScoresFall(table: seq<Division>, d: seq<RankData>)
    requires Covered(table, d)
  {
    forall a, b | 0 <= a < b < |d| ::
      GetByScore(table, d[a].value).value.newSeasonScore >= GetByScore(table, d[b].value).value.newSeasonScore
  }

  /**
   What the reset asks of a row `p` at position `a` and a later row `q` at position `b`: two new scores must
   not rise; a row that gets a new key must not change places with one that keeps its own; two rows
   that keep their keys are free.
   */
  ghost predicate PairKept(table: seq<Division>, now: int, n: nat, a: nat, b: nat, p: RankData, q: RankData) {
    var x, y := GetByScore(table, p.value), GetByScore(table, q.value);
    if x.Some? && y.Some? then x.value.newSeasonScore >= y.value.newSeasonScore
    else if x.Some? then !Greater(q, NewKey(p, x.value.newSeasonScore, now, n, a))
    else y.Some? ==> !Greater(NewKey(q, y.value.newSeasonScore, now, n, b), p)
  }

  ghost predicate KeepsOrder(table: seq<Division>, now: int, d: seq<RankData>) {
    forall a, b | 0 <= a < b < |d| :: PairKept(table, now, |d|, a, b, d[a], d[b])
  }

  lemma PairStays(table: seq<Division>, now: int, n: nat, a: nat, b: nat, p: RankData, q: RankData)
    requires a < b && !Greater(q, p)
    ensures !Greater(ResetRow(table, now, n, b, q), ResetRow(table, now, n, a, p)) <==>
      PairKept(table, now, n, a, b, p, q)
  {
  }

  /** The reset of an ordered list, scores without a division included, keeps the order exactly under `KeepsOrder`. */
  lemma ResetKeepsOrderIff(table: seq<Division>, now: int, d: seq<RankData>)
    requires Descending(d)
    ensures Descending(ResetRows(table, now, d)) <==> KeepsOrder(table, now, d)
  {
    var r := ResetRows(table, now, d);
    if Descending(r) {
      forall a, b | 0 <= a < b < |d|
        ensures PairKept(table, now, |d|, a, b, d[a], d[b])
      {
        assert !Greater(r[b], r[a]);
        PairStays(table, now, |d|, a, b, d[a], d[b]);
      }
    }
    if KeepsOrder(table, now, d) {
      forall a, b | 0 <= a < b < |d|
        ensures !Greater(r[b], r[a])
      {
        assert !Greater(d[b], d[a]);
        PairStays(table, now, |d|, a, b, d[a], d[b]);
      }
    }
  }

  /** On a list whose scores all have a division that comes down to the scores alone. */
  lemma CoveredKeepsOrderIff(table: seq<Division>, now: int, d: seq<RankData>)
    requires Covered(table, d) && Descending(d)
    ensures Descending(ResetRows(table, now, d)) <==> ScoresFall(table, d)
  {
    ResetKeepsOrderIff(table, now, d);
    hide ResetRows, Descending;
    forall a, b | 0 <= a < b < |d|
      ensures PairKept(table, now, |d|, a, b, d[a], d[b]) <==>
        GetByScore(table, d[a].value).value.newSeasonScore >= GetByScore(table, d[b].value).value.newSeasonScore
    {
    }
  }

  /** The table gives no lower new score to a higher old score. */
  ghost predicate Monotone(table: seq<Division>) {
    forall x, y | x <= y && GetByScore(table, x).Some? && GetByScore(table, y).Some? ::
      GetByScore(table, x).value.newSeasonScore <= GetByScore(table, y).value.newSeasonScore
  }

  /** A monotone table that covers the list makes the new scores fall, whatever the list. */
  lemma MonotoneScoresFall(table: seq<Division>, d: seq<RankData>)
    requires Monotone(table) && Covered(table, d) && Descending(d)
    ensures ScoresFall(table, d)
  {
    forall a, b | 0 <= a < b < |d|
      ensures GetByScore(table, d[a].value).value.newSeasonScore >= GetByScore(table, d[b].value).value.newSeasonScore
    {
      assert !Greater(d[b], d[a]);
    }
  }

  /** One uncovered score is enough to leave the list out of order, even under a monotone table. */
  lemma UncoveredBreaksOrder()
    ensures var table := [Division(10, 20, 5)];
      var d := [RankData(15, 0, 1), RankData(9, 0, 2)];
      Monotone(table) && Descending(d) && !Covered(table, d) && !Descending(ResetRows(table, 100, d))
  {
    var table := [Division(10, 20, 5)];
    var d := [RankData(15, 0, 1), RankData(9, 0, 2)];
    assert forall x :: GetByScore(table, x).Some? ==> GetByScore(table, x).value == table[0];
    var r := ResetRows(table, 100, d);
    assert GetByScore(table, 9) == None;
    assert r[0].value == 5 && r[1] == d[1];
    assert Greater(r[1], r[0]);
  }

  /** `written` has the new scores of the first `m` rows that have a division, each under its player's id, and no others. */
  ghost predicate WrittenBack(table: seq<Division>, d: seq<RankData>, m: nat, written: map<int, int>)
    requires m <= |d|
  {
    && (forall k | 0 <= k < m && GetByScore(table, d[k].value).Some? ::
          d[k].playerId in written && written[d[k].playerId] == GetByScore(table, d[k].value).value.newSeasonScore)
    && (forall id | id in written :: exists k ::
          0 <= k < m && d[k].playerId == id && GetByScore(table, d[k].value).Some?)
  }

  lemma WrittenMore(table: seq<Division>, d: seq<RankData>, m: nat, written: map<int, int>)
    requires m < |d| && DistinctIds(d) && WrittenBack(table, d, m, written)
    ensures WrittenBack(table, d, m + 1, match GetByScore(table, d[m].value)
      case None => written
      case Some(x) => written[d[m].playerId := x.newSeasonScore])
  {
    assert forall k | 0 <= k < m :: !KeyEqual(d[k], d[m]);
  }

  /** The rows once the first `m` are reset. */
  ghost function PartlyReset(table: seq<Division>, now: int, d: seq<RankData>, m: nat): (r: seq<RankData>)
    requires m <= |d|
    ensures |r| == |d|
  {
    ResetRows(table, now, d)[..m] + d[m..]
  }

  lemma ResetStarts(table: seq<Division>, now: int, d: seq<RankData>)
    ensures PartlyReset(table, now, d, 0) == d && PartlyReset(table, now, d, |d|) == ResetRows(table, now, d)
    ensures WrittenBack(table, d, 0, map[])
  {
  }

  lemma ResetMore(table: seq<Division>, now: int, d: seq<RankData>, m: nat)
    requires m < |d|
    ensures var r := PartlyReset(table, now, d, m);
      r[m] == d[m] && r[m := ResetRow(table, now, |d|, m, d[m])] == PartlyReset(table, now, d, m + 1)
  {
  }

  /** Looks up the row of a rank, which is read whatever order the rows are in. */
  method RowAt(list: CommonRankingList, rank: nat) returns (row: RankData)
    requires list.Consistent() && 1 <= rank <= |list.Ranking()|
    ensures list.Consistent() && list.Ranking() == old(list.Ranking()) && row == list.Ranking()[rank - 1]
  {
    hide CommonRankingList.Ranking, CommonRankingList.Consistent;
    var found := list.GetByRank(rank);
    return found.value;
  }

  /** The rows once the one at a rank has the key of its new score. */
  ghost function Rescored(d: seq<RankData>, now: int, rank: nat, rankNum: nat, score: int): (r: seq<RankData>)
    requires 1 <= rank <= rankNum == |d|
    ensures |r| == |d|
  {
    d[rank - 1 := NewKey(d[rank - 1], score, now, rankNum, rank - 1)]
  }

  /** Gives the row of a rank the key of its new score. */
  method Rescore(list: CommonRankingList, now: int, rank: nat, rankNum: nat, row: RankData, score: int)
    requires list.Consistent() && 1 <= rank <= rankNum == |list.Ranking()| && row == list.Ranking()[rank - 1]
    modifies list.key2item.Values
    ensures list.Consistent() && list.Ranking() == Rescored(old(list.Ranking()), now, rank, rankNum, score)
  {
    hide *;
    RescoredRow(list, now, rank, rankNum, score);
    list.SetValueByKey(row.playerId, score, now - (rankNum - rank));
  }

  /** Overwriting the key of the player at a rank is changing the row at that rank. */
  lemma RescoredRow(list: CommonRankingList, now: int, rank: nat, rankNum: nat, score: int)
    requires list.Consistent() && 1 <= rank <= rankNum == |list.Ranking()|
    ensures var d := list.Ranking();
      Rekeyed(d, d[rank - 1].playerId, score, now - (rankNum - rank)) == Rescored(d, now, rank, rankNum, score)
  {
    hide CommonRankingList.Ranking, CommonRankingList.Consistent, CommonRankingList.Contents, DistinctIds;
    var d := list.Ranking();
    list.RankingListsContents();
    assert DistinctIds(d);
    hide Lists;
    RekeyedOne(d, rank - 1, score, now - (rankNum - rank));
  }

  /** One round of the reset loop. */
  method ResetOne(list: CommonRankingList, table: seq<Division>, now: int, rank: nat, rankNum: nat)
      returns (row: RankData, division: Option<Division>)
    requires list.Consistent() && 1 <= rank <= rankNum == |list.Ranking()|
    modifies list.key2item.Values
    ensures list.Consistent() && row == old(list.Ranking())[rank - 1] && division == GetByScore(table, row.value)
    ensures list.Ranking() ==
      old(list.Ranking())[rank - 1 := ResetRow(table, now, rankNum, rank - 1, old(list.Ranking())[rank - 1])]
  {
    hide CommonRankingList.Ranking, CommonRankingList.Consistent, GetByScore;
    row := RowAt(list, rank);
    division := GetByScore(table, row.value);
    if division.Some? {
      Rescore(list, now, rank, rankNum, row, division.value.newSeasonScore);
    }
  }

  /** One round, together with what was reset before it. */
  method ResetNext(list: CommonRankingList, table: seq<Division>, now: int, ghost before: seq<RankData>,
                   rank: nat, rankNum: nat, soFar: map<int, int>) returns (written: map<int, int>)
    requires list.Consistent() && 1 <= rank <= rankNum == |before| && DistinctIds(before)
    requires list.Ranking() == PartlyReset(table, now, before, rank - 1) && WrittenBack(table, before, rank - 1, soFar)
    modifies list.key2item.Values
    ensures list.Consistent()
    ensures list.Ranking() == PartlyReset(table, now, before, rank) && WrittenBack(table, before, rank, written)
  {
    hide CommonRankingList.Ranking, CommonRankingList.Consistent, WrittenBack, GetByScore, DistinctIds;
    hide PartlyReset, ResetRows, ResetRow;
    ResetMore(table, now, before, rank - 1);
    WrittenMore(table, before, rank - 1, soFar);
    var row, division := ResetOne(list, table, now, rank, rankNum);
    written := soFar;
    if division.Some? {
      written := written[row.playerId := division.value.newSeasonScore];
    }
  }

  lemma RankedOnce(list: CommonRankingList)
    requires list.Consistent()
    ensures DistinctIds(list.Ranking())
  {
    hide CommonRankingList.Consistent, CommonRankingList.Ranking, CommonRankingList.Contents, DistinctIds;
    list.RankingListsContents();
  }

  /**
   The reset loop.  It reads rows by rank while earlier rows already have their new keys, which
   works because looking up a rank never compares rows.  `written` are the scores handed to the
   players or robots the rows belong to.
   */
  method Reset(list: CommonRankingList, table: seq<Division>, now: int) returns (written: map<int, int>)
    requires list.Consistent()
    modifies list.key2item.Values
    ensures list.Consistent()
    ensures list.Ranking() == old(ResetRows(table, now, list.Ranking()))
    ensures WrittenBack(table, old(list.Ranking()), |old(list.Ranking())|, written)
  {
    hide CommonRankingList.Ranking, CommonRankingList.Consistent, WrittenBack, GetByScore, DistinctIds;
    hide PartlyReset, ResetRows, ResetRow;
    ghost var before := list.Ranking();
    RankedOnce(list);
    ResetStarts(table, now, before);
    var rankNum := list.GetLength();
    var rank := 1;
    written := map[];
    while rank <= rankNum
      invariant 1 <= rank <= rankNum + 1 == |before| + 1 && list.Consistent()
      invariant list.Ranking() == PartlyReset(table, now, before, rank - 1)
      invariant WrittenBack(table, before, rank - 1, written)
    {
      written := ResetNext(list, table, now, before, rank, rankNum, written);
      rank := rank + 1;
    }
  }
}
