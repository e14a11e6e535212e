/** What a player's role list and published power say of the requests that led to them. */
module RoleRuns {
  import opened Options
  import opened RolePowers
  import opened Sequences
  import opened ShortRanks
  import opened Sums

  /** The roles' last powers after one more request: a role that is new finds no place among `cap` others. */
  ghost function Noted(m: map<int, int>, cap: nat, op: RoleOp): map<int, int> {
    match op
    case UpdateRole(id, power) => if id in m || |m| < cap then m[id := power] else m
    case DeleteRole(id) => m - {id}
  }

  ghost function Powers(m: map<int, int>, cap: nat, ops: seq<RoleOp>): map<int, int>
    decreases |ops|
  {
    if ops == [] then m else Powers(Noted(m, cap, ops[0]), cap, ops[1..])
  }

  /** The roles that some request gives a power. */
  ghost function Named(ops: seq<RoleOp>): set<int> {
    set i | 0 <= i < |ops| && ops[i].UpdateRole? :: ops[i].roleId
  }

  lemma Room(m: map<int, int>, cap: nat, ops: seq<RoleOp>)
    requires ops != [] && |m.Keys + Named(ops)| <= cap
    ensures |Noted(m, cap, ops[0]).Keys + Named(ops[1..])| <= cap
    ensures ops[0].UpdateRole? ==> ops[0].roleId in m || |m| < cap
  {
    var all := m.Keys + Named(ops);
    assert ops[0].UpdateRole? ==> ops[0].roleId in Named(ops);
    forall id | id in Named(ops[1..])
      ensures id in all
    {
      var i :| 0 <= i < |ops[1..]| && ops[1..][i].UpdateRole? && ops[1..][i].roleId == id;
      assert ops[i + 1].roleId == id;
    }
    Fewer(Noted(m, cap, ops[0]).Keys + Named(ops[1..]), all);
    if ops[0].UpdateRole? && ops[0].roleId !in m {
      Fewer(m.Keys + {ops[0].roleId}, all);
    }
  }

  lemma Fewer(a: set<int>, b: set<int>)
    requires a <= b
    ensures |a| <= |b|
  {
    assert b == a + (b - a);
  }

  /** A role that no request is about keeps the power it had. */
  lemma {:induction false} NotAbout(m: map<int, int>, cap: nat, ops: seq<RoleOp>, id: int)
    requires forall j | 0 <= j < |ops| :: ops[j].roleId != id
    ensures id in Powers(m, cap, ops) <==> id in m
    ensures id in m ==> Powers(m, cap, ops)[id] == m[id]
    decreases |ops|
  {
    if ops != [] {
      NotAbout(Noted(m, cap, ops[0]), cap, ops[1..], id);
    }
  }

  lemma NotedFirst(m: map<int, int>, cap: nat, ops: seq<RoleOp>) returns (n: map<int, int>)
    requires ops != [] && (ops[0].UpdateRole? ==> ops[0].roleId in m || |m| < cap)
    ensures n == Noted(m, cap, ops[0]) && Powers(m, cap, ops) == Powers(n, cap, ops[1..])
    ensures (ops[0].roleId in n <==> ops[0].UpdateRole?) && (ops[0].UpdateRole? ==> n[ops[0].roleId] == ops[0].power)
  {
    n := Noted(m, cap, ops[0]);
  }

  /** While all roles find a place, the last request about a role counts: its power, or that it is gone. */
  lemma {:induction false} LastPower(m: map<int, int>, cap: nat, ops: seq<RoleOp>, i: nat)
    requires |m.Keys + Named(ops)| <= cap
    requires i < |ops|
    requires forall j | i < j < |ops| :: ops[j].roleId != ops[i].roleId
    ensures var id, after := ops[i].roleId, Powers(m, cap, ops);
      && (id in after <==> ops[i].UpdateRole?)
      && (id in after ==> after[id] == ops[i].power)
    decreases |ops|
  {
    hide Named, Noted, Powers;
    Room(m, cap, ops);
    var n := NotedFirst(m, cap, ops);
    var rest := ops[1..];
    if i == 0 {
      NotAbout(n, cap, rest, ops[0].roleId);
    } else {
      LastPower(n, cap, rest, i - 1);
    }
  }

  ghost function Keys(s: seq<ShortItem>): set<int> {
    set k | 0 <= k < |s| :: s[k].key
  }

  lemma KeysMore(s: seq<ShortItem>, n: nat)
    requires n < |s|
    ensures Keys(s[..n + 1]) == Keys(s[..n]) + {s[n].key}
    ensures DistinctKeys(s) ==> s[n].key !in Keys(s[..n]) && Keys(s[..n + 1]) - {s[n].key} == Keys(s[..n])
  {
    var r := s[..n + 1];
    assert r[n] == s[n] && forall k | 0 <= k < n :: r[k] == s[..n][k] == s[k];
    assert forall k | 0 <= k < n :: s[..n][k].key in Keys(s[..n]) && r[k].key in Keys(r);
    assert r[n].key in Keys(r);
  }

  lemma {:induction false} KeyCount(s: seq<ShortItem>, n: nat)
    requires DistinctKeys(s) && n <= |s|
    ensures |Keys(s[..n])| == n
  {
    if n > 0 {
      KeyCount(s, n - 1);
      KeysMore(s, n - 1);
    }
  }

  lemma KeysPut(s: seq<ShortItem>, p: nat, it: ShortItem)
    requires p <= |s|
    ensures Keys(Put(s, p, it)) == Keys(s) + {it.key}
  {
    var r := Put(s, p, it);
    PutIndex(s, p, it);
    hide Put;
    forall k | 0 <= k < |s|
      ensures s[k].key in Keys(r)
    {
      assert r[Shift(p, k)] == s[k];
    }
    assert r[p].key in Keys(r);
  }

  lemma KeysTake(s: seq<ShortItem>, p: nat)
    requires p < |s| && DistinctKeys(s)
    ensures Keys(Take(s, p)) == Keys(s) - {s[p].key} && DistinctKeys(Take(s, p))
  {
    var r := Take(s, p);
    forall k | 0 <= k < |s| && k != p
      ensures s[k].key in Keys(r)
    {
      assert r[if k < p then k else k - 1] == s[k];
    }
  }

  /** `s` lists exactly the roles of `m` with their powers, each once. */
  ghost predicate Lists(s: seq<ShortItem>, m: map<int, int>) {
    && DistinctKeys(s) && Keys(s) == m.Keys
    && (forall k | 0 <= k < |s| :: s[k].key in m && m[s[k].key] == s[k].value)
  }

  lemma ListsCount(s: seq<ShortItem>, m: map<int, int>)
    requires Lists(s, m)
    ensures |s| == |m|
  {
    KeyCount(s, |s|);
    assert s[..|s|] == s;
  }

  lemma PutLists(s: seq<ShortItem>, m: map<int, int>, it: ShortItem, p: nat)
    requires Lists(s, m) && it.key !in m && p <= |s|
    ensures Lists(Put(s, p, it), m[it.key := it.value])
  {
    KeysPut(s, p, it);
    assert forall k | 0 <= k < |s| :: s[k].key in m;
    hide Keys;
  }

  lemma WithoutLists(s: seq<ShortItem>, m: map<int, int>, key: int)
    requires Lists(s, m)
    ensures Lists(WithoutKey(s, key), m - {key})
    ensures FindKey(s, key) < |s| <==> key in m
    ensures FindKey(s, key) < |s| ==> s[FindKey(s, key)] == ShortItem(key, m[key])
  {
    var k := FindKey(s, key);
    FindsFirst(s, key);
    hide FindKey;
    if k == |s| {
      assert key !in Keys(s);
      assert m - {key} == m;
    } else {
      KeysTake(s, k);
      hide Keys;
    }
  }

  lemma UpdatedLists(s: seq<ShortItem>, m: map<int, int>, cap: nat, it: ShortItem)
    requires Lists(s, m)
    ensures Lists(Updated(s, cap, it), Noted(m, cap, UpdateRole(it.key, it.value)))
  {
    ListsCount(s, m);
    WithoutLists(s, m, it.key);
    var rest := WithoutKey(s, it.key);
    SetAgain(m, it.key, it.value);
    hide Lists, FindKey, WithoutKey, Put, Place;
    PutLists(rest, m - {it.key}, it, Place(rest, it.value));
  }

  lemma SetAgain(m: map<int, int>, key: int, value: int)
    ensures (m - {key})[key := value] == m[key := value]
    ensures key in m && m[key] == value ==> m[key := value] == m
  {
  }

  lemma StepLists(t: Team, m: map<int, int>, cap: nat, op: RoleOp)
    requires Lists(t.roles, m)
    ensures Lists(Step(t, cap, op).roles, Noted(m, cap, op))
  {
    match op
    case UpdateRole(id, power) => UpdatedLists(t.roles, m, cap, ShortItem(id, power));
    case DeleteRole(id) => WithoutLists(t.roles, m, id);
  }

  /** After any run the list holds exactly the roles' last powers. */
  lemma {:induction false} RunLists(t: Team, m: map<int, int>, cap: nat, ops: seq<RoleOp>)
    requires Lists(t.roles, m)
    ensures Lists(RunRoles(t, cap, ops).roles, Powers(m, cap, ops))
    decreases |ops|
  {
    if ops != [] {
      StepLists(t, m, cap, ops[0]);
      RunLists(Step(t, cap, ops[0]), Noted(m, cap, ops[0]), cap, ops[1..]);
    }
  }

  // ---- the four strongest

  ghost function Chosen(m: map<int, int>, ids: set<int>): map<int, int> {
    map id | id in m && id in ids :: m[id]
  }

  /** `p` is the most that four roles, or all if there are fewer, have together. */
  ghost predicate IsTopFour(m: map<int, int>, p: int) {
    var n := if |m| < TOP_ROLES then |m| else TOP_ROLES;
    && (exists ids | ids <= m.Keys && |ids| == n :: Sum(Chosen(m, ids)) == p)
    && (forall ids | ids <= m.Keys && |ids| == n :: Sum(Chosen(m, ids)) <= p)
  }

  lemma DropOne(m: map<int, int>, ids: set<int>, id: int)
    requires id in ids && ids <= m.Keys
    ensures Sum(Chosen(m, ids)) == m[id] + Sum(Chosen(m, ids - {id}))
  {
    SumWithout(Chosen(m, ids), id);
    assert Chosen(m, ids) - {id} == Chosen(m, ids - {id});
  }

  lemma KeysWithin(s: seq<ShortItem>, m: map<int, int>, n: nat)
    requires Lists(s, m) && n <= |s|
    ensures Keys(s[..n]) <= m.Keys && |Keys(s[..n])| == n
  {
    KeyCount(s, n);
  }

  lemma NoneChosen(m: map<int, int>, s: seq<ShortItem>)
    ensures Keys(s[..0]) == {} && Sum(Chosen(m, {})) == TopSum(s, 0) == 0
  {
    assert Chosen(m, {}) == map[];
  }

  lemma OneMore(s: seq<ShortItem>, m: map<int, int>, n: nat)
    requires Lists(s, m) && n < |s|
    ensures Keys(s[..n + 1]) == Keys(s[..n]) + {s[n].key} && Keys(s[..n + 1]) - {s[n].key} == Keys(s[..n])
    ensures s[n].key in m && TopSum(s, n + 1) == TopSum(s, n) + m[s[n].key]
  {
    KeysMore(s, n);
  }

  lemma {:induction false} SumOfFirst(s: seq<ShortItem>, m: map<int, int>, n: nat)
    requires Lists(s, m) && n <= |s|
    ensures Sum(Chosen(m, Keys(s[..n]))) == TopSum(s, n)
  {
    hide Keys, Lists, Chosen, Sum, TopSum;
    if n == 0 {
      NoneChosen(m, s);
    } else {
      SumOfFirst(s, m, n - 1);
      KeysWithin(s, m, n);
      OneMore(s, m, n - 1);
      DropOne(m, Keys(s[..n]), s[n - 1].key);
    }
  }

  /** Of the first `k` roles, `n` have no more than the first `n`. */
  lemma {:induction false} FirstAreMost(s: seq<ShortItem>, m: map<int, int>, k: nat, ids: set<int>, n: nat)
    requires Lists(s, m) && Descending(s) && k <= |s| && ids <= Keys(s[..k]) && |ids| == n
    ensures n <= k && Sum(Chosen(m, ids)) <= TopSum(s, n)
    decreases k
  {
    hide Keys, Lists, Chosen, Sum, TopSum, Descending;
    KeysWithin(s, m, k);
    Fewer(ids, Keys(s[..k]));
    if n == 0 {
      NoneChosen(m, s);
    } else {
      OneMore(s, m, k - 1);
      OneMore(s, m, n - 1);
      var key := s[k - 1].key;
      if key in ids {
        DropOne(m, ids, key);
        FirstAreMost(s, m, k - 1, ids - {key}, n - 1);
        LaterIsLess(s, m, n - 1, k - 1);
      } else {
        FirstAreMost(s, m, k - 1, ids, n);
      }
    }
  }

  lemma LaterIsLess(s: seq<ShortItem>, m: map<int, int>, a: nat, b: nat)
    requires Lists(s, m) && Descending(s) && a <= b < |s|
    ensures s[a].key in m && s[b].key in m && m[s[b].key] <= m[s[a].key]
  {
    assert m[s[a].key] == s[a].value && m[s[b].key] == s[b].value;
  }

  lemma {:induction false} TopSumAll(s: seq<ShortItem>, n: nat)
    requires |s| <= n
    ensures TopSum(s, n) == TopSum(s, |s|)
  {
    if |s| < n {
      TopSumAll(s, n - 1);
    }
  }

  lemma ListedTopFour(s: seq<ShortItem>, m: map<int, int>)
    requires Lists(s, m) && Descending(s)
    ensures IsTopFour(m, TeamPower(s))
  {
    ListsCount(s, m);
    var n := if |m| < TOP_ROLES then |m| else TOP_ROLES;
    if n == |s| {
      TopSumAll(s, TOP_ROLES);
    }
    SumOfFirst(s, m, n);
    KeysWithin(s, m, n);
    assert s[..|s|] == s;
    hide Chosen, Sum, Keys, TopSum;
    assert Sum(Chosen(m, Keys(s[..n]))) == TeamPower(s);
    forall ids | ids <= m.Keys && |ids| == n
      ensures Sum(Chosen(m, ids)) <= TeamPower(s)
    {
      FirstAreMost(s, m, |s|, ids, n);
    }
  }

  /**
   Over every run the published power is the sum of the four strongest of the roles' last powers,
   if and only if that is positive.
   */
  lemma PublishedIsTopFour(t: Team, m: map<int, int>, cap: nat, ops: seq<RoleOp>)
    requires Sorted(t) && Truthful(t) && Positive(t) && Lists(t.roles, m)
    ensures var p := TeamPower(RunRoles(t, cap, ops).roles);
      IsTopFour(Powers(m, cap, ops), p) && (RunRoles(t, cap, ops).published == Some(p) <==> p > 0)
  {
    RunLists(t, m, cap, ops);
    PublishedStaysTrue(t, cap, ops);
    PublishedExactly(t, cap, ops);
    ListedTopFour(RunRoles(t, cap, ops).roles, Powers(m, cap, ops));
  }

  // ---- loading

  /** Loading is like one update for each stored role with a positive power. */
  ghost function Updates(ids: seq<int>, powers: map<int, int>): seq<RoleOp>
    requires forall i | 0 <= i < |ids| :: ids[i] in powers
  {
    if ids == [] then [] else
      var n := |ids| - 1;
      Updates(ids[..n], powers) + if powers[ids[n]] > 0 then [UpdateRole(ids[n], powers[ids[n]])] else []
  }

  lemma {:induction false} PowersMore(m: map<int, int>, cap: nat, ops: seq<RoleOp>, op: RoleOp)
    ensures Powers(m, cap, ops + [op]) == Noted(Powers(m, cap, ops), cap, op)
    decreases |ops|
  {
    hide Noted;
    if ops == [] {
      assert ops + [op] == [op] && [op][1..] == [];
      assert Powers(m, cap, [op]) == Powers(Noted(m, cap, op), cap, []);
    } else {
      assert (ops + [op])[1..] == ops[1..] + [op];
      PowersMore(Noted(m, cap, ops[0]), cap, ops[1..], op);
    }
  }

  lemma {:induction false} LoadedLists(s: seq<ShortItem>, m: map<int, int>, cap: nat, ids: seq<int>, powers: map<int, int>)
    requires Lists(s, m) && forall i | 0 <= i < |ids| :: ids[i] in powers
    ensures Lists(Loaded(s, cap, ids, powers), Powers(m, cap, Updates(ids, powers)))
    decreases |ids|
  {
    hide Lists, Noted, Updated;
    if ids != [] {
      var n := |ids| - 1;
      LoadedLists(s, m, cap, ids[..n], powers);
      var before := Updates(ids[..n], powers);
      if powers[ids[n]] > 0 {
        var it := ShortItem(ids[n], powers[ids[n]]);
        UpdatedLists(Loaded(s, cap, ids[..n], powers), Powers(m, cap, before), cap, it);
        PowersMore(m, cap, before, UpdateRole(it.key, it.value));
      } else {
        assert before + [] == before;
      }
    }
  }
}
