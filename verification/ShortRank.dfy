/** The bounded ranking kept as a sorted array with an index from keys to positions. */
module ShortRanks {
  import opened Options
  import opened Sequences

  datatype ShortItem = ShortItem(key: int, value: int)

  predicate Greater(a: ShortItem, b: ShortItem) {
    a.value > b.value
  }

  predicate Less(a: ShortItem, b: ShortItem) {
    a.value < b.value
  }

  ghost predicate Descending(s: seq<ShortItem>) {
    forall a, b | 0 <= a < b < |s| :: s[a].value >= s[b].value
  }

  ghost predicate DistinctKeys(s: seq<ShortItem>) {
    forall a, b | 0 <= a < b < |s| :: s[a].key != s[b].key
  }

  /** `m` leads every key of `s` to its position, and has no other key. */
  ghost predicate Indexes(m: map<int, int>, s: seq<ShortItem>) {
    && (forall k | 0 <= k < |s| :: s[k].key in m && m[s[k].key] == k)
    && (forall key | key in m :: 0 <= m[key] < |s| && s[m[key]].key == key)
  }

  /** How many leading items are not smaller than `value`. */
  ghost function Place(s: seq<ShortItem>, value: int): (p: nat)
    ensures p <= |s|
  {
    if s == [] || s[0].value < value then 0 else 1 + Place(s[1..], value)
  }

  lemma {:induction false} PlaceIs(s: seq<ShortItem>, value: int, p: nat)
    requires p <= |s|
    requires forall k | 0 <= k < p :: s[k].value >= value
    requires p < |s| ==> s[p].value < value
    ensures Place(s, value) == p
  {
    if p > 0 {
      PlaceIs(s[1..], value, p - 1);
    }
  }

  /** The list after an item is put behind the last one that is not smaller. */
  ghost function Placed(s: seq<ShortItem>, it: ShortItem): seq<ShortItem> {
    Put(s, Place(s, it.value), it)
  }

  ghost function FindKey(s: seq<ShortItem>, key: int): (k: nat)
    ensures k <= |s|
  {
    if s == [] || s[0].key == key then 0 else 1 + FindKey(s[1..], key)
  }

  ghost function WithoutKey(s: seq<ShortItem>, key: int): seq<ShortItem> {
    if FindKey(s, key) < |s| then Take(s, FindKey(s, key)) else s
  }

  lemma {:induction false} FindKeyIs(s: seq<ShortItem>, key: int, k: nat)
    requires k <= |s| && (forall j | 0 <= j < k :: s[j].key != key) && (k < |s| ==> s[k].key == key)
    ensures FindKey(s, key) == k
  {
    if k > 0 {
      FindKeyIs(s[1..], key, k - 1);
    }
  }

  ghost function Values(s: seq<Option<ShortItem>>): (r: seq<ShortItem>)
    requires forall i | 0 <= i < |s| :: s[i].Some?
    ensures |r| == |s| && forall i | 0 <= i < |s| :: r[i] == s[i].value
  {
    seq(|s|, i requires 0 <= i < |s| => s[i].value)
  }

  lemma PlacedIs(s: seq<ShortItem>, it: ShortItem, p: nat)
    requires Descending(s) && DistinctKeys(s) && p <= |s|
    requires forall k | 0 <= k < |s| :: s[k].key != it.key
    requires forall k | 0 <= k < p :: s[k].value >= it.value
    requires p < |s| ==> s[p].value < it.value
    ensures Placed(s, it) == Put(s, p, it)
    ensures Descending(Put(s, p, it)) && DistinctKeys(Put(s, p, it))
  {
    PlaceIs(s, it.value, p);
    hide Put;
    var r := Put(s, p, it);
    forall a, b | 0 <= a < b < |r|
      ensures r[a].value >= r[b].value && r[a].key != r[b].key
    {
      PutAt(s, p, it, a);
      PutAt(s, p, it, b);
    }
  }

  lemma TakeKeeps(s: seq<ShortItem>, k: nat)
    requires DistinctKeys(s) && Descending(s) && k < |s|
    ensures DistinctKeys(Take(s, k)) && Descending(Take(s, k))
    ensures forall j | 0 <= j < |s| - 1 :: Take(s, k)[j].key != s[k].key
  {
    hide Take;
    var r := Take(s, k);
    forall j | 0 <= j < |r|
      ensures r[j] == s[if j < k then j else j + 1]
    {
      TakeAt(s, k, j);
    }
  }

  lemma WithoutKeyIs(s: seq<ShortItem>, k: nat)
    requires DistinctKeys(s) && Descending(s) && k < |s|
    ensures FindKey(s, s[k].key) == k && WithoutKey(s, s[k].key) == Take(s, k)
    ensures DistinctKeys(Take(s, k)) && Descending(Take(s, k))
    ensures forall j | 0 <= j < |s| - 1 :: Take(s, k)[j].key != s[k].key
  {
    FindKeyIs(s, s[k].key, k);
    TakeKeeps(s, k);
  }

  /** A changed item goes to position `p` of the others: the first whose item it beats. */
  lemma MoveIs(s: seq<ShortItem>, idx: nat, it: ShortItem, p: nat)
    requires DistinctKeys(s) && Descending(s) && idx < |s| && p < |s| && it.key == s[idx].key
    requires forall k | 0 <= k < |s| && k != idx ::
      if (if k < idx then k else k - 1) < p then s[k].value >= it.value else s[k].value < it.value
    ensures var r := Put(Take(s, idx), p, it);
      Placed(Take(s, idx), it) == r && Descending(r) && DistinctKeys(r)
  {
    WithoutKeyIs(s, idx);
    hide Take, Put, Placed;
    var rest := Take(s, idx);
    forall k | 0 <= k < |rest|
      ensures if k < p then rest[k].value >= it.value else rest[k].value < it.value
    {
      TakeAt(s, idx, k);
      var o := if k < idx then k else k + 1;
      assert if (if o < idx then o else o - 1) < p then s[o].value >= it.value else s[o].value < it.value;
    }
    PlacedIs(rest, it, p);
  }

  lemma Appended(s: seq<ShortItem>, it: ShortItem, m: map<int, int>)
    requires Indexes(m, s) && Descending(s) && it.key !in m
    ensures var t := s + [it];
      Take(t, |s|) == s && t[..|s|] == s && Indexes(m[it.key := |s|], t)
  {
  }

  lemma NewKey(s: seq<ShortItem>, key: int, m: map<int, int>)
    requires Indexes(m, s) && key !in m
    ensures forall k | 0 <= k < |s| :: s[k].key != key
  {
  }

  /** Where the item now at position `k` was before the item at `idx` moved to `p`. */
  ghost function From(idx: nat, p: nat, k: nat): nat {
    if p < k <= idx then k - 1 else if idx <= k < p then k + 1 else k
  }

  /** Where the item at position `k` goes when the item at `idx` moves to `p`. */
  ghost function Goes(idx: nat, p: nat, k: nat): nat {
    if p <= k < idx then k + 1 else if idx < k <= p then k - 1 else k
  }

  lemma MovedAt(s: seq<ShortItem>, idx: nat, p: nat, it: ShortItem, k: nat)
    requires idx < |s| && p < |s| && k < |s|
    ensures Put(Take(s, idx), p, it)[k] == if k == p then it else s[From(idx, p, k)]
  {
    PutAt(Take(s, idx), p, it, k);
    if k != p {
      TakeAt(s, idx, if k < p then k else k - 1);
    }
  }

  /** If every key's position follows the move, the index stays exact. */
  lemma IndexMove(s: seq<ShortItem>, idx: nat, p: nat, it: ShortItem, was: map<int, int>, m: map<int, int>)
    requires idx < |s| && p < |s| && it.key == s[idx].key && Indexes(was, s)
    requires m.Keys == was.Keys && m[it.key] == p
    requires forall key | key in m && key != it.key :: m[key] == Goes(idx, p, was[key])
    ensures Indexes(m, Put(Take(s, idx), p, it))
  {
    hide Put, Take;
    var r := Put(Take(s, idx), p, it);
    forall k | 0 <= k < |r|
      ensures r[k].key in m && m[r[k].key] == k
    {
      MovedAt(s, idx, p, it, k);
      if k != p {
        var o := From(idx, p, k);
        assert was[s[o].key] == o != idx;
      }
    }
    forall key | key in m
      ensures 0 <= m[key] < |r| && r[m[key]].key == key
    {
      MovedAt(s, idx, p, it, m[key]);
      if key != it.key {
        assert was[key] != idx;
      }
    }
  }

  /** The index after a removal: later positions move up by one. */
  lemma IndexTake(s: seq<ShortItem>, idx: nat, was: map<int, int>, m: map<int, int>)
    requires idx < |s| && Indexes(was, s)
    requires m.Keys == was.Keys - {s[idx].key}
    requires forall key | key in m :: m[key] == if was[key] > idx then was[key] - 1 else was[key]
    ensures Indexes(m, Take(s, idx))
  {
    hide Take;
    var r := Take(s, idx);
    forall k | 0 <= k < |r|
      ensures r[k].key in m && m[r[k].key] == k
    {
      TakeAt(s, idx, k);
      var o := if k < idx then k else k + 1;
      assert was[s[o].key] == o;
    }
    forall key | key in m
      ensures 0 <= m[key] < |r| && r[m[key]].key == key
    {
      assert was[key] != idx;
      TakeAt(s, idx, m[key]);
    }
  }

  class ShortRankList {
    const items: array<Option<ShortItem>>
    const maxNum: nat
    var currNum: nat
    var keysMap: map<int, int>

    ghost predicate Present()
      reads this`currNum, items
    {
      currNum <= items.Length && forall i | 0 <= i < currNum :: items[i].Some?
    }

    /** The items in ranking order. */
    ghost function View(): (s: seq<ShortItem>)
      requires Present()
      reads this`currNum, items
      ensures |s| == currNum && forall i | 0 <= i < currNum :: s[i] == items[i].value
    {
      Values(items[..currNum])
    }

    ghost predicate Filled()
      reads this, items
    {
      && items.Length == maxNum && 0 < maxNum && currNum <= maxNum
      && (forall i | 0 <= i < items.Length :: items[i].Some? <==> i < currNum)
    }

    ghost predicate Valid()
      reads this, items
    {
      Filled() && Descending(View()) && DistinctKeys(View()) && Indexes(keysMap, View())
    }

    constructor (maxNum: nat)
      requires 0 < maxNum
      ensures Valid() && View() == [] && this.maxNum == maxNum && fresh(items)
    {
      this.maxNum := maxNum;
      items := new Option<ShortItem>[maxNum](_ => None);
      currNum := 0;
      keysMap := map[];
    }

    /** The array begins with the items of `s`. */
    ghost predicate Holds(s: seq<ShortItem>)
      reads items
    {
      |s| <= items.Length && forall k | 0 <= k < |s| :: items[k] == Some(s[k])
    }

    /** Moves the items at positions `b`, ..., `e` one place back. */
    method ShiftBack(b: nat, e: int, ghost s: seq<ShortItem>)
      requires b <= e + 1 < |s| && Holds(s) && Indexes(keysMap, s)
      modifies this`keysMap, items
      ensures forall i | 0 <= i < items.Length ::
        items[i] == if b < i <= e + 1 then old(items[i - 1]) else old(items[i])
      ensures keysMap.Keys == old(keysMap).Keys
      ensures forall key | key in keysMap ::
        keysMap[key] == var i := old(keysMap)[key]; if b <= i <= e then i + 1 else i
    {
      var n := e;
      while n >= b
        invariant b - 1 <= n <= e
        invariant forall i | 0 <= i < items.Length ::
          items[i] == if n + 1 < i <= e + 1 then old(items[i - 1]) else old(items[i])
        invariant keysMap.Keys == old(keysMap).Keys
        invariant forall key | key in keysMap ::
          keysMap[key] == var i := old(keysMap)[key]; if n < i <= e then i + 1 else i
      {
        items[n + 1] := items[n];
        keysMap := keysMap[items[n + 1].value.key := n + 1];
        n := n - 1;
      }
    }

    /** Moves the items at positions `b`, ..., `e` one place forward. */
    method ShiftForward(b: nat, e: int, ghost s: seq<ShortItem>)
      requires 1 <= b <= e + 1 <= |s| && Holds(s) && Indexes(keysMap, s)
      modifies this`keysMap, items
      ensures forall i | 0 <= i < items.Length ::
        items[i] == if b - 1 <= i < e then old(items[i + 1]) else old(items[i])
      ensures keysMap.Keys == old(keysMap).Keys
      ensures forall key | key in keysMap ::
        keysMap[key] == var i := old(keysMap)[key]; if b <= i <= e then i - 1 else i
    {
      var i := b;
      while i <= e
        invariant b <= i <= e + 1
        invariant forall j | 0 <= j < items.Length ::
          items[j] == if b - 1 <= j < i - 1 then old(items[j + 1]) else old(items[j])
        invariant keysMap.Keys == old(keysMap).Keys
        invariant forall key | key in keysMap ::
          keysMap[key] == var j := old(keysMap)[key]; if b <= j < i then j - 1 else j
      {
        items[i - 1] := items[i];
        keysMap := keysMap[items[i - 1].value.key := i - 1];
        i := i + 1;
      }
    }

    /** Where an item goes among the first `top`: behind the last one that it does not beat. */
    method PlaceBelow(item: ShortItem, top: nat, ghost s: seq<ShortItem>) returns (p: nat)
      requires top <= |s| && Holds(s) && Descending(s[..top])
      ensures p <= top && (forall k | 0 <= k < p :: s[k].value >= item.value)
      ensures forall k | p <= k < top :: s[k].value < item.value
    {
      var i := top - 1;
      assert forall k | 0 <= k < top :: s[..top][k] == s[k];
      while i >= 0
        invariant -1 <= i < top
        invariant forall k | i < k < top :: s[k].value < item.value
      {
        if !Greater(item, items[i].value) {
          break;
        }
        i := i - 1;
      }
      return i + 1;
    }

    /** Where an item that lost value goes: before the first later one it beats. */
    method PlaceAbove(item: ShortItem, from: nat, ghost s: seq<ShortItem>) returns (p: nat)
      requires from <= currNum == |s| && Holds(s)
      ensures from <= p <= |s| && (forall k | from <= k < p :: s[k].value >= item.value)
      ensures p < |s| ==> s[p].value < item.value
    {
      var i := from;
      while i < currNum
        invariant from <= i <= currNum
        invariant forall k | from <= k < i :: s[k].value >= item.value
      {
        if Greater(item, items[i].value) {
          break;
        }
        i := i + 1;
      }
      return i;
    }

    /** Moves the item just stored at the end of `t` to position `p`. */
    method Settle(item: ShortItem, p: nat, ghost t: seq<ShortItem>)
      requires |t| == currNum + 1 && Holds(t) && Indexes(keysMap, t) && t[currNum] == item && p <= currNum
      modifies this`keysMap, items
      ensures Indexes(keysMap, Put(Take(t, currNum), p, item)) && Holds(Put(Take(t, currNum), p, item))
      ensures forall i | currNum < i < items.Length :: items[i] == old(items[i])
    {
      ghost var was := keysMap;
      assert keysMap[item.key] == currNum;
      hide Put, Take, Indexes;
      if p != currNum {
        Slide(currNum, p, t);
        items[p] := Some(item);
        keysMap := keysMap[item.key := p];
      }
      IndexMove(t, currNum, p, item, was, keysMap);
      forall k | 0 <= k <= currNum
        ensures items[k] == Some(Put(Take(t, currNum), p, item)[k])
      {
        MovedAt(t, currNum, p, item, k);
      }
    }

    /** Stores an item with a new key behind all others. */
    method Append(item: ShortItem)
      requires Valid() && currNum < maxNum && item.key !in keysMap
      modifies this`keysMap, items
      ensures Holds(old(View()) + [item]) && Indexes(keysMap, old(View()) + [item])
      ensures forall i | currNum < i < items.Length :: items[i] == None
    {
      ghost var s := View();
      Appended(s, item, keysMap);
      hide Indexes, Descending, DistinctKeys;
      items[currNum] := Some(item);
      keysMap := keysMap[item.key := currNum];
    }

    /** The place of an item stored behind all others. */
    method PlaceNew(item: ShortItem, ghost s: seq<ShortItem>) returns (p: nat)
      requires |s| == currNum && Holds(s + [item]) && Descending(s) && DistinctKeys(s)
      requires forall k | 0 <= k < |s| :: s[k].key != item.key
      ensures p <= |s| && Placed(s, item) == Put(s, p, item)
      ensures Descending(Put(s, p, item)) && DistinctKeys(Put(s, p, item))
    {
      ghost var t := s + [item];
      assert t[..currNum] == s;
      p := PlaceBelow(item, currNum, t);
      assert forall k | 0 <= k < |s| :: t[k] == s[k];
      PlacedIs(s, item, p);
    }

    /** Adds an item with a new key: it starts at the end and moves to its place. */
    method AddNew(item: ShortItem)
      requires Valid() && currNum < maxNum && item.key !in keysMap
      modifies this`keysMap, this`currNum, items
      ensures Valid() && View() == Placed(old(View()), item)
    {
      ghost var s := View();
      Appended(s, item, keysMap);
      NewKey(s, item.key, keysMap);
      hide Put, Take, Placed, Indexes, DistinctKeys, Descending;
      Append(item);
      var p := PlaceNew(item, s);
      Settle(item, p, s + [item]);
      currNum := currNum + 1;
      Becomes(Put(s, p, item));
    }

    /** Storing the items of `r` and indexing them is all it takes. */
    lemma Becomes(r: seq<ShortItem>)
      requires |r| == currNum <= maxNum == items.Length && 0 < maxNum && Holds(r) && Indexes(keysMap, r)
      requires forall i | currNum <= i < items.Length :: items[i] == None
      requires Descending(r) && DistinctKeys(r)
      ensures Valid() && View() == r
    {
      hide Indexes, Descending, DistinctKeys;
      assert Present();
      assert View() == r;
    }

    /** Moves the items between `idx` and `p` one place towards `idx`. */
    method Slide(idx: nat, p: nat, ghost s: seq<ShortItem>)
      requires Holds(s) && Indexes(keysMap, s) && idx < |s| && p < |s|
      modifies this`keysMap, items
      ensures forall k | 0 <= k < items.Length && k != p :: items[k] == old(items[..])[From(idx, p, k)]
      ensures keysMap.Keys == old(keysMap).Keys
      ensures forall key | key in keysMap && old(keysMap)[key] != idx :: keysMap[key] == Goes(idx, p, old(keysMap)[key])
    {
      if p < idx {
        ShiftBack(p, idx - 1, s);
      } else {
        ShiftForward(idx + 1, p, s);
      }
    }

    /** Moves the item at `idx`, which got a new value, to position `p` of the others. */
    method MoveTo(it: ShortItem, idx: nat, p: nat, ghost s: seq<ShortItem>)
      requires Valid() && s == View() && idx < |s| && p < |s| && it.key == s[idx].key
      requires Descending(Put(Take(s, idx), p, it)) && DistinctKeys(Put(Take(s, idx), p, it))
      modifies this`keysMap, items
      ensures Valid() && View() == Put(Take(s, idx), p, it)
    {
      assert Holds(s);
      hide Put, Take, Descending, DistinctKeys;
      Slide(idx, p, s);
      items[p] := Some(it);
      keysMap := keysMap[it.key := p];
      IndexMove(s, idx, p, it, old(keysMap), keysMap);
      ghost var r := Put(Take(s, idx), p, it);
      forall k | 0 <= k < |r|
        ensures items[k] == Some(r[k])
      {
        MovedAt(s, idx, p, it, k);
      }
      Becomes(r);
    }

    /** The place of the item at `idx` once it has its new value: up if it gained, down if it lost. */
    method PlaceChanged(it: ShortItem, idx: nat, ghost s: seq<ShortItem>) returns (p: nat)
      requires Valid() && s == View() && idx < |s| && s[idx].key == it.key && s[idx].value != it.value
      ensures p < |s|
      ensures var r := Put(Take(s, idx), p, it);
        Placed(Take(s, idx), it) == r && Descending(r) && DistinctKeys(r)
    {
      hide Put, Take, Placed, Indexes;
      if Greater(it, items[idx].value) {
        p := PlaceBelow(it, idx, s);
      } else {
        var q := PlaceAbove(it, idx + 1, s);
        p := q - 1;
      }
      MoveIs(s, idx, it, p);
    }

    /** Moves the item at `idx` to the place its new value deserves. */
    method Revalue(it: ShortItem, idx: nat) returns (ok: bool)
      requires Valid() && idx < currNum && View()[idx].key == it.key
      modifies this`keysMap, items
      ensures Valid() && ok == (old(View())[idx].value != it.value)
      ensures View() == if ok then Placed(Take(old(View()), idx), it) else old(View())
    {
      ghost var s := View();
      hide Put, Take, Placed, Indexes, Descending, DistinctKeys;
      if !Greater(it, items[idx].value) && !Less(it, items[idx].value) {
        return false;
      }
      var p := PlaceChanged(it, idx, s);
      MoveTo(it, idx, p, s);
      return true;
    }

    /**
     Stores an item.  With `add`, the stored value of its key is added to the caller's item first;
     `result` is that item.  A new key is refused when the list is full, an unchanged value always.
     */
    method Update(item: ShortItem, add: bool) returns (ok: bool, result: ShortItem)
      requires Valid()
      modifies this`keysMap, this`currNum, items
      ensures Valid()
      ensures var s := old(View()); var k := FindKey(s, item.key);
        && result == (if k < |s| && add then item.(value := item.value + s[k].value) else item)
        && ok == (if k < |s| then s[k].value != result.value else |s| < maxNum)
        && View() == if ok then Placed(WithoutKey(s, item.key), result) else s
    {
      result := item;
      ghost var s := View();
      Found(item.key);
      if item.key !in keysMap {
        if currNum >= maxNum {
          return false, result;
        }
        AddNew(item);
        return true, result;
      }
      var idx := keysMap[item.key];
      if items[idx].None? {
        return false, result;
      }
      if add {
        result := result.(value := result.value + items[idx].value.value);
      }
      ok := Revalue(result, idx);
    }

    /** The index finds what a search of the items would. */
    lemma Found(key: int)
      requires Valid()
      ensures key in keysMap <==> FindKey(View(), key) < |View()|
      ensures key in keysMap ==> keysMap[key] == FindKey(View(), key)
      ensures WithoutKey(View(), key) == if key in keysMap then Take(View(), keysMap[key]) else View()
    {
      if key in keysMap {
        WithoutKeyIs(View(), keysMap[key]);
      } else {
        FindKeyIs(View(), key, |View()|);
      }
    }

    /** Closes the gap that the item at `idx` leaves. */
    method TakeOut(idx: nat, key: int, ghost s: seq<ShortItem>)
      requires |s| == currNum && idx < currNum && s[idx].key == key && Holds(s) && Indexes(keysMap, s)
      modifies this`keysMap, items
      ensures Holds(Take(s, idx)) && Indexes(keysMap, Take(s, idx)) && items[currNum - 1] == None
      ensures forall i | currNum <= i < items.Length :: items[i] == old(items[i])
    {
      hide Take;
      ghost var was := keysMap;
      ShiftForward(idx + 1, currNum - 1, s);
      keysMap := keysMap - {key};
      items[currNum - 1] := None;
      IndexTake(s, idx, was, keysMap);
      forall k | 0 <= k < |s| - 1
        ensures items[k] == Some(Take(s, idx)[k])
      {
        TakeAt(s, idx, k);
      }
    }

    /** Removes the item of a key. */
    method Delete(key: int) returns (ok: bool)
      requires Valid()
      modifies this`keysMap, this`currNum, items
      ensures Valid() && ok == (FindKey(old(View()), key) < |old(View())|)
      ensures View() == WithoutKey(old(View()), key)
    {
      Found(key);
      if key !in keysMap {
        return false;
      }
      ghost var s := View();
      var idx := keysMap[key];
      TakeKeeps(s, idx);
      hide Take, WithoutKey, FindKey, Descending, DistinctKeys, Indexes;
      TakeOut(idx, key, s);
      currNum := currNum - 1;
      Becomes(Take(s, idx));
      return true;
    }

    /** The rank of a key, counted from 1; 0 if it has none. */
    method GetRank(key: int) returns (rank: nat)
      requires Valid()
      ensures var k := FindKey(View(), key); rank == if k < |View()| then k + 1 else 0
    {
      Found(key);
      if key !in keysMap {
        return 0;
      }
      return keysMap[key] + 1;
    }

    /** The item of a rank; as in the source, ranks below 1 are the caller's error. */
    method GetByRank(rank: int) returns (item: Option<ShortItem>)
      requires Valid() && 1 <= rank
      ensures item == if rank <= |View()| then Some(View()[rank - 1]) else None
    {
      if currNum < rank {
        return None;
      }
      return items[rank - 1];
    }
  }
}
