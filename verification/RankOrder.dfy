/** The sort key shared by the player ranking lists and its lexicographic order. */
module RankOrder {

  /** One row of a ranking list: the score, when it was reached and whose it is. */
  datatype RankData = RankData(value: int, updateTime: int, playerId: int)

  /** `a` ranks before `b`: higher value, then earlier time, then smaller id. */
  predicate Greater(a: RankData, b: RankData) {
    if a.value > b.value then true
    else if a.value == b.value then
      if a.updateTime < b.updateTime then true
      else a.updateTime == b.updateTime && a.playerId < b.playerId
    else false
  }

  /** `a` ranks after `b`, decided field by field as `Greater` is. */
  predicate Less(a: RankData, b: RankData) {
    if a.value < b.value then true
    else if a.value == b.value then
      if a.updateTime > b.updateTime then true
      else a.updateTime == b.updateTime && a.playerId > b.playerId
    else false
  }

  predicate KeyEqual(a: RankData, b: RankData) {
    a.playerId == b.playerId
  }

  /** The mutable object a ranking list and its skip list share. */
  class RankItem {
    var data: RankData

    constructor (data: RankData)
      ensures this.data == data
    {
      this.data := data;
    }

    /** Copies every field, the key included. */
    method Assign(d: RankData)
      modifies this
      ensures data == d
    {
      data := d;
    }

    /** Overwrites the sort key but keeps whose row it is. */
    method SetValue(value: int, updateTime: int)
      modifies this
      ensures data == old(data).(value := value, updateTime := updateTime)
    {
      data := data.(value := value, updateTime := updateTime);
    }
  }

  /** No row later in `d` ranks before an earlier one. */
  ghost predicate Descending(d: seq<RankData>) {
    forall a, b | 0 <= a < b < |d| :: !Greater(d[b], d[a])
  }

  ghost predicate DistinctIds(d: seq<RankData>) {
    forall a, b | 0 <= a < b < |d| :: !KeyEqual(d[a], d[b])
  }

  /** In a ranking, higher values come first, of equal ones the earlier time, and of these the smaller id. */
  lemma WhoIsAhead(d: seq<RankData>, a: nat, b: nat)
    requires Descending(d) && DistinctIds(d) && a < |d| && b < |d| && a != b
    ensures a < b <==>
      || d[a].value > d[b].value
      || (d[a].value == d[b].value && d[a].updateTime < d[b].updateTime)
      || (d[a].value == d[b].value && d[a].updateTime == d[b].updateTime && d[a].playerId < d[b].playerId)
  {
    var x, y := if a < b then a else b, if a < b then b else a;
    assert !Greater(d[y], d[x]) && !KeyEqual(d[x], d[y]);
  }

  /** `p` is where `v` belongs in `d`: exactly the rows before it rank before `v`. */
  ghost predicate IsCut(d: seq<RankData>, v: RankData, p: nat) {
    p <= |d|
    && (forall k | 0 <= k < p :: Greater(d[k], v))
    && (forall k | p <= k < |d| :: !Greater(d[k], v))
  }

  /** How many leading rows rank before `v`. */
  ghost function Cut(d: seq<RankData>, v: RankData): (p: nat)
    ensures p <= |d|
  {
    if d == [] || !Greater(d[0], v) then 0 else 1 + Cut(d[1..], v)
  }

  /** `Greater` is a strict total order on rows of different players, and `Less` is its converse. */
  lemma StrictTotalOrder(a: RankData, b: RankData, c: RankData)
    ensures !Greater(a, a)
    ensures Greater(a, b) ==> !Greater(b, a)
    ensures Greater(a, b) && Greater(b, c) ==> Greater(a, c)
    ensures !KeyEqual(a, b) ==> Greater(a, b) || Greater(b, a)
    ensures Less(a, b) <==> Greater(b, a)
  {
  }

  /** In a descending list the leading rows that rank before `v` are all that do. */
  lemma {:induction false} CutIsCut(d: seq<RankData>, v: RankData)
    requires Descending(d)
    ensures IsCut(d, v, Cut(d, v))
  {
    if d != [] && Greater(d[0], v) {
      CutIsCut(d[1..], v);
      assert forall k | 1 <= k < |d| :: d[k] == d[1..][k - 1];
    }
  }

  lemma CutUnique(d: seq<RankData>, v: RankData, p: nat, q: nat)
    requires IsCut(d, v, p) && IsCut(d, v, q)
    ensures p == q
  {
    var atP := p < |d| && Greater(d[p], v);
    var atQ := q < |d| && Greater(d[q], v);
  }

  /** Inserting at the cut keeps a descending list descending. */
  lemma InsertAtCut(d: seq<RankData>, v: RankData, p: nat)
    requires Descending(d) && IsCut(d, v, p)
    ensures Descending(d[..p] + [v] + d[p..])
  {
    var e := d[..p] + [v] + d[p..];
    forall a, b | 0 <= a < b < |e|
      ensures !Greater(e[b], e[a])
    {
      assert a < p ==> e[a] == d[a];
      assert a > p ==> e[a] == d[a - 1];
      assert b < p ==> e[b] == d[b];
      assert b > p ==> e[b] == d[b - 1];
    }
  }

  /** Removing one row keeps a descending list descending and its ids distinct. */
  lemma RemoveOne(d: seq<RankData>, p: nat)
    requires p < |d|
    ensures Descending(d) ==> Descending(d[..p] + d[p + 1..])
    ensures DistinctIds(d) ==> DistinctIds(d[..p] + d[p + 1..])
  {
    var e := d[..p] + d[p + 1..];
    assert forall k | 0 <= k < |e| :: e[k] == d[if k < p then k else k + 1];
  }

  /** With distinct ids, a stored row's cut is its own index. */
  lemma CutOfStored(d: seq<RankData>, k: nat)
    requires Descending(d) && DistinctIds(d) && k < |d|
    ensures IsCut(d, d[k], k)
  {
    forall j | 0 <= j < k
      ensures Greater(d[j], d[k])
    {
      StrictTotalOrder(d[j], d[k], d[k]);
    }
  }
}
