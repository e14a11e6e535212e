/** The ranking list: a key map and a skip list over the same item objects. */
module RankLists {
  import opened Options
  import opened RankOrder
  import opened Sequences
  import opened SkipLists
  import opened SkipNodes

  function Min(a: int, b: int): int {
    if a < b then a else b
  }

  ghost function Ids(d: seq<RankData>): set<int> {
    set k | 0 <= k < |d| :: d[k].playerId
  }

  /** Rows with distinct ids are as many as their ids. */
  lemma {:induction false} IdsCount(d: seq<RankData>)
    requires DistinctIds(d)
    ensures |Ids(d)| == |d|
  {
    if d != [] {
      var e := d[..|d| - 1];
      IdsCount(e);
      assert Ids(d) == Ids(e) + {d[|d| - 1].playerId};
      assert d[|d| - 1].playerId !in Ids(e);
    }
  }

  /** The keys of `m` whose row ranks before `v`. */
  ghost function Ahead(m: map<int, RankData>, v: RankData): set<int> {
    set k | k in m && Greater(m[k], v)
  }

  /** `d` lists exactly the rows of `m`, each under its own key. */
  ghost predicate Lists(d: seq<RankData>, m: map<int, RankData>) {
    && DistinctIds(d)
    && (forall k | 0 <= k < |d| :: d[k].playerId in m && m[d[k].playerId] == d[k])
    && (forall id | id in m :: m[id] in d && m[id].playerId == id)
  }

  /** The position of a row in the ranking is the number of rows that rank before it. */
  lemma PositionIsCount(d: seq<RankData>, m: map<int, RankData>, q: nat)
    requires Descending(d) && Lists(d, m) && q < |d|
    ensures |Ahead(m, d[q])| == q
  {
    CutOfStored(d, q);
    IdsCount(d[..q]);
    forall id
      ensures id in Ahead(m, d[q]) <==> id in Ids(d[..q])
    {
      if id in Ahead(m, d[q]) {
        var k :| 0 <= k < |d| && d[k] == m[id];
        assert d[..q][k].playerId == id;
      }
      if id in Ids(d[..q]) {
        var k :| 0 <= k < q && d[..q][k].playerId == id;
        assert d[k].playerId == id;
      }
    }
    assert Ahead(m, d[q]) == Ids(d[..q]);
  }

  lemma ListsCount(d: seq<RankData>, m: map<int, RankData>)
    requires Lists(d, m)
    ensures |m| == |d|
  {
    IdsCount(d);
    forall id
      ensures id in m.Keys <==> id in Ids(d)
    {
      if id in m {
        var k :| 0 <= k < |d| && d[k] == m[id];
        assert d[k].playerId == id;
      }
    }
    assert m.Keys == Ids(d);
  }

  /** The rows of a ranking determine its order: there is only one ranking of a key map. */
  lemma {:induction false} RankingUnique(d: seq<RankData>, e: seq<RankData>, m: map<int, RankData>)
    requires Descending(d) && Descending(e) && Lists(d, m) && Lists(e, m)
    ensures d == e
  {
    ListsCount(d, m);
    ListsCount(e, m);
    forall q | 0 <= q < |d|
      ensures d[q] == e[q]
    {
      PositionIsCount(d, m, q);
      assert m[d[q].playerId] in e;
      var k :| 0 <= k < |e| && e[k] == d[q];
      PositionIsCount(e, m, k);
    }
  }

  lemma StoredCut(d: seq<RankData>, m: map<int, RankData>, q: nat)
    requires Descending(d) && Lists(d, m) && q < |d|
    ensures Cut(d, d[q]) == q && |Ahead(m, d[q])| == q
    ensures forall k | 0 <= k < |d| && KeyEqual(d[k], d[q]) :: k == q
  {
    CutOfStored(d, q);
    CutIsCut(d, d[q]);
    CutUnique(d, d[q], q, Cut(d, d[q]));
    PositionIsCount(d, m, q);
  }

  /** The listed objects and the values of a map are the same, each listed once. */
  ghost predicate SameObjects(listed: multiset<RankItem>, m: map<int, RankItem>) {
    && (forall x | x in listed :: listed[x] == 1 && exists id :: id in m && m[id] == x)
    && (forall id | id in m :: m[id] in listed)
  }

  lemma ListedOnce(its: seq<RankItem>, a: nat, b: nat)
    requires a < b < |its| && its[a] == its[b]
    ensures multiset(its)[its[a]] >= 2
  {
    assert its == its[..b] + [its[b]] + its[b + 1..];
    assert its[a] == its[..b][a];
    assert its[a] in multiset(its[..b]);
  }

  /** Every key leads to a row of that player. */
  ghost predicate Keyed(m: map<int, RankItem>)
    reads m.Values
  {
    forall id | id in m :: m[id].data.playerId == id
  }

  ghost function RowMap(m: map<int, RankItem>): map<int, RankData>
    reads m.Values
  {
    map id | id in m :: m[id].data
  }

  lemma SameObjectsList(its: seq<RankItem>, m: map<int, RankItem>)
    requires SameObjects(multiset(its), m) && Keyed(m)
    ensures Lists(Rows(its), RowMap(m))
  {
    var d := Rows(its);
    forall k | 0 <= k < |its|
      ensures d[k].playerId in m && m[d[k].playerId] == its[k]
    {
      var it := its[k];
      assert it in multiset(its);
      assert exists id :: id in m && m[id] == it;
    }
    forall a, b | 0 <= a < b < |its|
      ensures !KeyEqual(d[a], d[b])
    {
      if KeyEqual(d[a], d[b]) {
        var x := its[a];
        assert multiset(its)[x] == 1;
        ListedOnce(its, a, b);
        assert false;
      }
    }
    forall id | id in m
      ensures RowMap(m)[id] in d
    {
      assert m[id] in its;
      var k :| 0 <= k < |its| && its[k] == m[id];
      assert d[k] == RowMap(m)[id];
    }
  }

  lemma SameObjectsAdd(listed: multiset<RankItem>, m: map<int, RankItem>, key: int, item: RankItem)
    requires SameObjects(listed, m) && item !in listed && key !in m
    ensures SameObjects(listed + multiset{item}, m[key := item])
  {
    var n := m[key := item];
    forall x | x in listed + multiset{item}
      ensures exists id :: id in n && n[id] == x
    {
      if x == item {
        assert n[key] == x;
      } else {
        var id :| id in m && m[id] == x;
        assert n[id] == x;
      }
    }
  }

  /** The rows after one player's sort key is overwritten. */
  ghost function Rekeyed(d: seq<RankData>, key: int, value: int, updateTime: int): (r: seq<RankData>)
    ensures |r| == |d|
  {
    seq(|d|, k requires 0 <= k < |d| =>
      if d[k].playerId == key then d[k].(value := value, updateTime := updateTime) else d[k])
  }

  lemma RekeyedOne(d: seq<RankData>, q: nat, value: int, updateTime: int)
    requires DistinctIds(d) && q < |d|
    ensures Rekeyed(d, d[q].playerId, value, updateTime) == d[q := d[q].(value := value, updateTime := updateTime)]
  {
    forall k | 0 <= k < |d| && k != q
      ensures d[k].playerId != d[q].playerId
    {
      assert !KeyEqual(d[if k < q then k else q], d[if k < q then q else k]);
    }
  }

  lemma RowsAre(its: seq<RankItem>, d: seq<RankData>)
    requires |its| == |d| && forall k | 0 <= k < |its| :: d[k] == its[k].data
    ensures Rows(its) == d
  {
  }

  class CommonRankingList {
    const rankingItems: Skiplist
    var key2item: map<int, RankItem>
    const maxRank: int

    /** List and map hold the same objects, whatever their order. */
    ghost predicate Consistent()
      reads this, rankingItems, rankingItems.nodes, rankingItems.lengthsNum, key2item.Values
    {
      rankingItems.Formed() && SameObjects(multiset(rankingItems.Items()), key2item) && Keyed(key2item)
    }

    ghost predicate Valid()
      reads this, rankingItems, rankingItems.nodes, rankingItems.lengthsNum, key2item.Values, rankingItems.Items()
    {
      Consistent() && rankingItems.Valid()
    }

    /** The rows in ranking order. */
    ghost function Ranking(): (d: seq<RankData>)
      reads rankingItems`nodes, rankingItems.Items()
      ensures |d| == |rankingItems.Items()|
    {
      Rows(rankingItems.Items())
    }

    /** The rows by key. */
    ghost function Contents(): map<int, RankData>
      reads this, key2item.Values
    {
      RowMap(key2item)
    }

    constructor (maxRank: int)
      ensures Valid() && Contents() == map[] && this.maxRank == maxRank
      ensures fresh(rankingItems) && fresh(rankingItems.nodes) && fresh(rankingItems.lengthsNum)
      ensures fresh(rankingItems.beforeNode) && fresh(rankingItems.rank)
    {
      rankingItems := new Skiplist();
      key2item := map[];
      this.maxRank := maxRank;
    }

    lemma RankingListsContents()
      requires Consistent()
      ensures Lists(Ranking(), Contents()) && |Contents()| == |Ranking()|
    {
      SameObjectsList(rankingItems.Items(), key2item);
      ListsCount(Ranking(), Contents());
    }

    /** Where a stored key is, and that the search for it ends there. */
    lemma Stored(key: int) returns (q: nat)
      requires Valid() && key in key2item
      ensures q < |Ranking()| && Ranking()[q] == key2item[key].data == Contents()[key]
      ensures Cut(Ranking(), key2item[key].data) == q
      ensures q == |Ahead(Contents(), Contents()[key])|
      ensures forall k | 0 <= k < |Ranking()| && KeyEqual(Ranking()[k], Ranking()[q]) :: k == q
    {
      hide Skiplist.Structure, Skiplist.Ended, Skiplist.Tallied, Skiplist.Items, Descending;
      RankingListsContents();
      var d, m := Ranking(), Contents();
      var v := m[key];
      assert v in d;
      q :| 0 <= q < |d| && d[q] == v;
      StoredCut(d, m, q);
    }

    /** The rank of a key: one more than the number of players who rank before it; 0 for a stranger. */
    method GetRank(key: int) returns (rank: nat)
      requires Valid()
      ensures rank == if key in Contents() then 1 + |Ahead(Contents(), Contents()[key])| else 0
      ensures rank != 0 ==> rank <= |Ranking()| && Ranking()[rank - 1] == Contents()[key]
    {
      hide Skiplist.Structure, Skiplist.Ended, Skiplist.Tallied, Cut, Descending;
      if key !in key2item {
        return 0;
      }
      ghost var q := Stored(key);
      rank := rankingItems.GetRank(key2item[key]);
    }

    /** A copy of the row of that rank. */
    method GetByRank(rank: int) returns (row: Option<RankData>)
      requires Consistent()
      ensures row == if 1 <= rank <= |Ranking()| then Some(Ranking()[rank - 1]) else None
    {
      hide Skiplist.Structure, Skiplist.Ended, Skiplist.Tallied, Skiplist.Items, Descending;
      var item := rankingItems.GetByRank(rank);
      if item == null {
        return None;
      }
      return Some(item.data);
    }

    /**
     Copies up to `rankNum` consecutive rows from rank `rankStart` on into `out`.  As in the
     source, a negative count or too small a buffer is the caller's error.
     */
    method GetRangeNodes(rankStart: int, rankNum: int, out: array<RankData>) returns (num: nat)
      requires Consistent() && 0 <= rankNum
      requires rankStart >= 1 ==> out.Length >= Min(rankNum, |Ranking()| - rankStart + 1)
      modifies out
      ensures num == if 1 <= rankStart <= maxRank && rankStart <= |Ranking()|
        then Min(rankNum, |Ranking()| - rankStart + 1) else 0
      ensures num <= out.Length && forall j | 0 <= j < out.Length ::
        out[j] == if j < num then Ranking()[rankStart - 1 + j] else old(out[j])
    {
      hide Skiplist.Structure, Skiplist.Ended, Skiplist.Tallied, Skiplist.Items;
      num := 0;
      if rankStart <= 0 || rankStart > maxRank {
        return;
      }
      KeyCount();
      rankingItems.ItemsAre();
      hide Skiplist.Formed, SameObjects, Keyed, RowMap;
      if rankStart > |key2item| {
        return;
      }
      var wanted := Min(rankNum, |key2item| - rankStart + 1);
      var items := new RankItem?[wanted](_ => null);
      var ok := rankingItems.GetByRankRange(rankStart, wanted, items);
      if !ok {
        return;
      }
      num := CopyRows(items, out, rankingItems.Items()[rankStart - 1..rankStart - 1 + wanted]);
    }

    lemma KeyCount()
      requires Consistent()
      ensures |key2item| == |Ranking()|
    {
      RankingListsContents();
      assert Contents().Keys == key2item.Keys;
    }

    /** Copies the rows of the given items to the front of `out`. */
    static method CopyRows(items: array<RankItem?>, out: array<RankData>, ghost listed: seq<RankItem>) returns (num: nat)
      requires items.Length == |listed| <= out.Length
      requires forall j | 0 <= j < |listed| :: items[j] == listed[j]
      modifies out
      ensures num == |listed|
      ensures forall j | 0 <= j < out.Length :: out[j] == if j < num then listed[j].data else old(out[j])
    {
      num := 0;
      var i := 0;
      while i < items.Length
        invariant 0 <= i == num <= items.Length
        invariant forall j | 0 <= j < |listed| :: items[j] == listed[j]
        invariant forall j | 0 <= j < out.Length :: out[j] == if j < i then listed[j].data else old(out[j])
      {
        var item := items[i];
        if item != null {
          out[i] := item.data;
          num := num + 1;
        }
        i := i + 1;
      }
    }

    method GetLength() returns (n: nat)
      requires Consistent()
      ensures n == |Ranking()|
    {
      rankingItems.ItemsAre();
      return rankingItems.currLength;
    }

    /** The object at a position is filed under its own key and listed nowhere else. */
    lemma ObjectAt(q: nat)
      requires Consistent() && q < |Ranking()|
      ensures Ranking()[q].playerId in key2item && key2item[Ranking()[q].playerId] == rankingItems.Items()[q]
      ensures forall k | 0 <= k < |Ranking()| && k != q :: rankingItems.Items()[k] != rankingItems.Items()[q]
    {
      hide Skiplist.Structure, Skiplist.Ended, Skiplist.Tallied, Skiplist.Items;
      RankingListsContents();
      StoredObject(Ranking()[q].playerId, q);
      forall k | 0 <= k < |Ranking()| && k != q
        ensures rankingItems.Items()[k] != rankingItems.Items()[q]
      {
        assert !KeyEqual(Ranking()[if k < q then k else q], Ranking()[if k < q then q else k]);
      }
    }

    /** Overwrites a stored sort key in place, without moving the row. */
    method SetValueByKey(key: int, value: int, updateTime: int)
      requires Consistent()
      modifies key2item.Values
      ensures Consistent() && Ranking() == Rekeyed(old(Ranking()), key, value, updateTime)
    {
      if key !in key2item {
        RekeyStranger(key, value, updateTime);
      } else {
        SetStored(key, value, updateTime);
      }
    }

    method SetStored(key: int, value: int, updateTime: int)
      requires Consistent() && key in key2item
      modifies key2item.Values
      ensures Consistent() && Ranking() == Rekeyed(old(Ranking()), key, value, updateTime)
    {
      hide Skiplist.Structure, Skiplist.Ended, Skiplist.Tallied, Descending, Rekeyed;
      ghost var after := RekeyObject(key, value, updateTime);
      hide Skiplist.Formed, SameObjects, Keyed, RowMap, Rows;
      Overwrite(key2item, key, value, updateTime, rankingItems.Items(), after);
    }

    lemma RekeyStranger(key: int, value: int, updateTime: int)
      requires Consistent() && key !in key2item
      ensures Ranking() == Rekeyed(Ranking(), key, value, updateTime)
    {
      RankingListsContents();
    }

    /** The rows after the object filed under `key` gets a new sort key. */
    lemma RekeyObject(key: int, value: int, updateTime: int) returns (after: seq<RankData>)
      requires Consistent() && key in key2item
      ensures after == Rekeyed(Ranking(), key, value, updateTime)
      ensures var its, item := rankingItems.Items(), key2item[key];
        && |after| == |its|
        && forall k | 0 <= k < |its| :: after[k] ==
             if its[k] == item then item.data.(value := value, updateTime := updateTime) else its[k].data
    {
      after := Rekeyed(Ranking(), key, value, updateTime);
      forall k | 0 <= k < |after|
        ensures rankingItems.Items()[k] == key2item[key] <==> Ranking()[k].playerId == key
      {
        ObjectAt(k);
      }
    }

    /** Takes the item of a key out of the list; the map keeps it. */
    method Delete(key: int) returns (ok: bool)
      requires Valid()
      modifies rankingItems, rankingItems.lengthsNum, rankingItems.beforeNode, rankingItems.nodes
      ensures ok <==> key in key2item
      ensures rankingItems.Valid()
      ensures ok ==> multiset(rankingItems.Items()) + multiset{key2item[key]} == old(multiset(rankingItems.Items()))
      ensures !ok ==> Valid() && rankingItems.Items() == old(rankingItems.Items())
      ensures forall n | n in rankingItems.nodes :: n in old(rankingItems.nodes)
    {
      hide Skiplist.Structure, Skiplist.Ended, Skiplist.Tallied, Skiplist.Items, Descending;
      if key !in key2item {
        return false;
      }
      ghost var q := Stored(key);
      var item := key2item[key];
      ghost var its := rankingItems.Items();
      StoredObject(key, q);
      TakePut(its, q);
      PutMultiset(Take(its, q), q, item);
      ok := rankingItems.Delete(item);
    }

    /** The object at a stored key's position is the one in the map. */
    lemma StoredObject(key: int, q: nat)
      requires Consistent() && key in key2item && q < |Ranking()| && Ranking()[q].playerId == key
      ensures rankingItems.Items()[q] == key2item[key]
    {
      hide Skiplist.Structure, Skiplist.Ended, Skiplist.Tallied, Skiplist.Items, Descending;
      var it := rankingItems.Items()[q];
      assert it in multiset(rankingItems.Items());
      var id :| id in key2item && key2item[id] == it;
    }

    /** Puts an item into the list at its place and files it under its key. */
    method Insert(key: int, item: RankItem, newLayer: nat)
      requires rankingItems.Valid() && 1 <= newLayer <= MAX_LAYER
      modifies this`key2item, rankingItems, rankingItems.lengthsNum, rankingItems.beforeNode, rankingItems.rank
      modifies rankingItems.nodes
      ensures rankingItems.Valid() && key2item == old(key2item)[key := item]
      ensures multiset(rankingItems.Items()) == old(multiset(rankingItems.Items())) + multiset{item}
      ensures forall n | n in rankingItems.nodes :: n in old(rankingItems.nodes) || fresh(n)
    {
      hide Skiplist.Structure, Skiplist.Ended, Skiplist.Tallied, Skiplist.Items, Descending;
      ghost var its := rankingItems.Items();
      PutMultiset(its, Cut(Rows(its), item.data), item);
      var layer := rankingItems.Insert(item, newLayer);
      key2item := key2item[key := item];
    }

    /**
     Stores a row under its player's key, replacing the old one: the item leaves the list, takes
     the new row and comes back at its new place.
     */
    method Update(d: RankData, newLayer: nat) returns (ok: bool)
      requires Valid() && 1 <= newLayer <= MAX_LAYER
      modifies this, rankingItems, rankingItems.lengthsNum, rankingItems.beforeNode, rankingItems.rank
      modifies rankingItems.nodes, key2item.Values
      ensures ok && Valid()
      ensures Contents() == old(Contents())[d.playerId := d]
      ensures forall n | n in rankingItems.nodes :: n in old(rankingItems.nodes) || fresh(n)
      ensures forall it | it in key2item.Values :: it in old(key2item.Values) || fresh(it)
    {
      hide Skiplist.Structure, Skiplist.Ended, Skiplist.Tallied, Descending, SameObjects, Keyed, RowMap;
      if d.playerId in key2item {
        ok := Replace(d, newLayer);
      } else {
        var item := new RankItem(d);
        ok := Add(item, newLayer);
      }
    }

    /** `Update` of a key already there. */
    method Replace(d: RankData, newLayer: nat) returns (ok: bool)
      requires Valid() && 1 <= newLayer <= MAX_LAYER && d.playerId in key2item
      modifies this`key2item, rankingItems, rankingItems.lengthsNum, rankingItems.beforeNode, rankingItems.rank
      modifies rankingItems.nodes, key2item[d.playerId]
      ensures ok && Valid()
      ensures Contents() == old(Contents())[d.playerId := d]
      ensures forall n | n in rankingItems.nodes :: n in old(rankingItems.nodes) || fresh(n)
      ensures key2item == old(key2item)
    {
      hide Skiplist.Structure, Skiplist.Ended, Skiplist.Tallied, Skiplist.Items, Descending;
      var item := key2item[d.playerId];
      ghost var was := RowMap(key2item);
      OthersApart(key2item, d.playerId);
      hide SameObjects, Skiplist.Formed, Keyed, RowMap, Rows;
      ok := Swap(d, item, newLayer);
      assert forall k | k in key2item && k != d.playerId :: key2item[k].data == was[k];
      RowMapAssigned(key2item, was, d);
    }

    /** Takes the item of a key out of the list and brings it back with a new row. */
    method Swap(d: RankData, item: RankItem, newLayer: nat) returns (ok: bool)
      requires Valid() && 1 <= newLayer <= MAX_LAYER && d.playerId in key2item && key2item[d.playerId] == item
      modifies this`key2item, rankingItems, rankingItems.lengthsNum, rankingItems.beforeNode, rankingItems.rank
      modifies rankingItems.nodes, item
      ensures ok && rankingItems.Valid() && key2item == old(key2item) && item.data == d
      ensures multiset(rankingItems.Items()) == old(multiset(rankingItems.Items()))
      ensures forall n | n in rankingItems.nodes :: n in old(rankingItems.nodes) || fresh(n)
    {
      hide Skiplist.Structure, Skiplist.Ended, Skiplist.Tallied, Skiplist.Items, Descending;
      assert multiset(rankingItems.Items())[item] == 1;
      hide SameObjects, Skiplist.Formed, Keyed, RowMap, Rows;
      var deleted := Delete(d.playerId);
      if !deleted {
        return false;
      }
      Reinsert(d, item, newLayer);
      return true;
    }

    /** Brings an item that left the list back with a new row. */
    method Reinsert(d: RankData, item: RankItem, newLayer: nat)
      requires rankingItems.Valid() && item !in rankingItems.Items() && 1 <= newLayer <= MAX_LAYER
      requires d.playerId in key2item && key2item[d.playerId] == item
      modifies this`key2item, rankingItems, rankingItems.lengthsNum, rankingItems.beforeNode, rankingItems.rank
      modifies set n | n in rankingItems.nodes
      modifies item
      ensures rankingItems.Valid() && key2item == old(key2item) && item.data == d
      ensures multiset(rankingItems.Items()) == old(multiset(rankingItems.Items())) + multiset{item}
      ensures forall n | n in rankingItems.nodes :: n in old(rankingItems.nodes) || fresh(n)
    {
      hide Skiplist.Structure, Skiplist.Ended, Skiplist.Tallied, Skiplist.Items, Descending;
      ghost var its := rankingItems.Items();
      ghost var rows := Rows(its);
      item.Assign(d);
      assert Rows(its) == rows;
      hide Skiplist.Formed;
      Insert(d.playerId, item, newLayer);
      assert key2item == old(key2item);
    }

    /** `Update` of a new key, whose item is not listed yet. */
    method Add(item: RankItem, newLayer: nat) returns (ok: bool)
      requires Valid() && 1 <= newLayer <= MAX_LAYER
      requires item.data.playerId !in key2item && item !in rankingItems.Items()
      modifies this`key2item, rankingItems, rankingItems.lengthsNum, rankingItems.beforeNode, rankingItems.rank
      modifies rankingItems.nodes
      ensures ok && Valid()
      ensures Contents() == old(Contents())[item.data.playerId := item.data]
      ensures forall n | n in rankingItems.nodes :: n in old(rankingItems.nodes) || fresh(n)
      ensures key2item == old(key2item)[item.data.playerId := item]
    {
      hide Skiplist.Formed, Skiplist.Items, Descending, SameObjects, Keyed, RowMap, Rows;
      var key := item.data.playerId;
      SameObjectsAdd(multiset(rankingItems.Items()), key2item, key, item);
      RowMapAdded(key2item, item.data, item);
      Insert(key, item, newLayer);
      return true;
    }
  }

  lemma RowMapAdded(m: map<int, RankItem>, d: RankData, item: RankItem)
    requires d.playerId !in m && item.data == d && Keyed(m)
    ensures RowMap(m[d.playerId := item]) == RowMap(m)[d.playerId := d]
    ensures Keyed(m[d.playerId := item])
    ensures forall it | it in m[d.playerId := item].Values :: it in m.Values || it == item
  {
  }

  lemma OthersApart(m: map<int, RankItem>, key: int)
    requires Keyed(m) && key in m
    ensures forall k | k in m && k != key :: m[k] != m[key]
    ensures RowMap(m).Keys == m.Keys && forall k | k in RowMap(m) :: RowMap(m)[k].playerId == k && RowMap(m)[k] == m[k].data
  {
    assert forall k | k in m :: m[k].data.playerId == k;
  }

  /** A row of the same player replaced one item's row. */
  lemma RowMapAssigned(m: map<int, RankItem>, was: map<int, RankData>, d: RankData)
    requires d.playerId in m && m[d.playerId].data == d && m.Keys == was.Keys
    requires forall k | k in m && k != d.playerId :: m[k].data == was[k]
    requires forall k | k in was :: was[k].playerId == k
    ensures RowMap(m) == was[d.playerId := d] && Keyed(m)
  {
    assert RowMap(m).Keys == was.Keys;
    forall k | k in m
      ensures RowMap(m)[k] == was[d.playerId := d][k]
    {
    }
  }

  /** Gives the item of a key a new sort key; `its` are the items of a list, `after` what their rows become. */
  method Overwrite(m: map<int, RankItem>, key: int, value: int, updateTime: int, ghost its: seq<RankItem>, ghost after: seq<RankData>)
    requires Keyed(m) && key in m && |after| == |its|
    requires forall k | 0 <= k < |its| ::
      after[k] == if its[k] == m[key] then m[key].data.(value := value, updateTime := updateTime) else its[k].data
    modifies m[key]
    ensures Keyed(m) && Rows(its) == after
  {
    OthersApart(m, key);
    ghost var was := RowMap(m);
    hide Keyed, RowMap, Rows;
    m[key].SetValue(value, updateTime);
    RowMapAssigned(m, was, m[key].data);
    RowsAre(its, after);
  }
}
