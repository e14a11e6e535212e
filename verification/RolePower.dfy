/**
 A player's team power: the sum of the four strongest roles, published to the server-wide
 ranking only when a role whose rank is or was among the first four changes.
 */
module RolePowers {
  import opened Options
  import opened Sequences
  import opened ShortRanks

  const TOP_ROLES := 4

  /** The sum of the first `n` powers of a list, or of all if there are fewer. */
  ghost function TopSum(s: seq<ShortItem>, n: nat): int {
    if n == 0 then 0 else TopSum(s, n - 1) + if n <= |s| then s[n - 1].value else 0
  }

  ghost function TeamPower(s: seq<ShortItem>): int {
    TopSum(s, TOP_ROLES)
  }

  /** No choice of four roles has more power than the team. */
  lemma TeamIsStrongest(s: seq<ShortItem>, a: nat, b: nat, c: nat, d: nat)
    requires Descending(s) && a < b < c < d < |s|
    ensures s[a].value + s[b].value + s[c].value + s[d].value <= TeamPower(s)
  {
    assert TopSum(s, 1) == s[0].value;
    assert TopSum(s, 4) == TopSum(s, 2) + s[2].value + s[3].value;
    assert TopSum(s, 2) == s[0].value + s[1].value;
  }

  ghost function RankOf(s: seq<ShortItem>, key: int): nat {
    if FindKey(s, key) < |s| then FindKey(s, key) + 1 else 0
  }

  ghost predicate OnTop(rank: nat) {
    1 <= rank <= TOP_ROLES
  }

  /** The state one player's team power depends on. */
  datatype Team = Team(roles: seq<ShortItem>, published: Option<int>)

  datatype RoleOp = UpdateRole(roleId: int, power: int) | DeleteRole(roleId: int)

  /** The list after an update: refused for a new role when the list is full, ignored for an equal power. */
  ghost function Updated(s: seq<ShortItem>, cap: nat, it: ShortItem): seq<ShortItem> {
    var k := FindKey(s, it.key);
    if (if k < |s| then s[k].value != it.value else |s| < cap) then Placed(WithoutKey(s, it.key), it) else s
  }

  ghost function Published(t: Team): Team {
    if TeamPower(t.roles) > 0 then t.(published := Some(TeamPower(t.roles))) else t
  }

  ghost function Step(t: Team, cap: nat, op: RoleOp): Team {
    match op
    case UpdateRole(id, power) =>
      var after := t.(roles := Updated(t.roles, cap, ShortItem(id, power)));
      if OnTop(RankOf(t.roles, id)) || OnTop(RankOf(after.roles, id)) then Published(after) else after
    case DeleteRole(id) =>
      var after := t.(roles := WithoutKey(t.roles, id));
      if OnTop(RankOf(t.roles, id)) then Published(after) else after
  }

  ghost function RunRoles(t: Team, cap: nat, ops: seq<RoleOp>): Team
    decreases |ops|
  {
    if ops == [] then t else RunRoles(Step(t, cap, ops[0]), cap, ops[1..])
  }

  ghost predicate Sorted(t: Team) {
    Descending(t.roles) && DistinctKeys(t.roles)
  }

  /** Whenever the team has power at all, the published value is exactly it. */
  ghost predicate Truthful(t: Team) {
    TeamPower(t.roles) > 0 ==> t.published == Some(TeamPower(t.roles))
  }

  lemma {:induction false} SameTop(s: seq<ShortItem>, t: seq<ShortItem>, n: nat)
    requires |s| == |t| || (n <= |s| && n <= |t|)
    requires forall k | 0 <= k < n && k < |s| :: s[k] == t[k]
    ensures TopSum(s, n) == TopSum(t, n)
  {
    if n > 0 {
      SameTop(s, t, n - 1);
    }
  }

  /** A key that is not stored is found where it is put. */
  lemma FindPut(s: seq<ShortItem>, it: ShortItem, p: nat)
    requires p <= |s| && forall k | 0 <= k < |s| :: s[k].key != it.key
    ensures FindKey(Put(s, p, it), it.key) == p
  {
    hide Put;
    PutAt(s, p, it, p);
    forall k | 0 <= k < p
      ensures Put(s, p, it)[k].key != it.key
    {
      PutAt(s, p, it, k);
    }
    FindKeyIs(Put(s, p, it), it.key, p);
  }

  lemma {:induction false} FindsFirst(s: seq<ShortItem>, key: int)
    ensures var k := FindKey(s, key); (k < |s| ==> s[k].key == key) && forall j | 0 <= j < k :: s[j].key != key
  {
    if s != [] && s[0].key != key {
      FindsFirst(s[1..], key);
    }
  }

  lemma {:induction false} PlaceSplits(s: seq<ShortItem>, value: int)
    ensures var p := Place(s, value);
      (p < |s| ==> s[p].value < value) && forall k | 0 <= k < p :: s[k].value >= value
  {
    if s != [] && s[0].value >= value {
      PlaceSplits(s[1..], value);
    }
  }

  lemma WithoutKeySorted(s: seq<ShortItem>, key: int)
    requires Descending(s) && DistinctKeys(s)
    ensures var r := WithoutKey(s, key);
      Descending(r) && DistinctKeys(r) && forall k | 0 <= k < |r| :: r[k].key != key
  {
    FindsFirst(s, key);
    if FindKey(s, key) < |s| {
      TakeKeeps(s, FindKey(s, key));
    }
  }

  lemma UpdatedSorted(s: seq<ShortItem>, cap: nat, it: ShortItem)
    requires Descending(s) && DistinctKeys(s)
    ensures Descending(Updated(s, cap, it)) && DistinctKeys(Updated(s, cap, it))
  {
    hide WithoutKey, Put, Place;
    WithoutKeySorted(s, it.key);
    PlaceSplits(WithoutKey(s, it.key), it.value);
    PlacedIs(WithoutKey(s, it.key), it, Place(WithoutKey(s, it.key), it.value));
  }

  /** Removing a role below the top four leaves the top four alone. */
  lemma TopAfterRemoval(s: seq<ShortItem>, key: int)
    requires !OnTop(RankOf(s, key))
    ensures TeamPower(WithoutKey(s, key)) == TeamPower(s)
    ensures FindKey(s, key) < |s| ==> 4 <= |WithoutKey(s, key)|
  {
    var k := FindKey(s, key);
    if k < |s| {
      hide Take, FindKey;
      forall j | 0 <= j < 4
        ensures Take(s, k)[j] == s[j]
      {
        TakeAt(s, k, j);
      }
      SameTop(s, Take(s, k), 4);
    }
  }

  /** Putting a role below the top four leaves the top four alone. */
  lemma TopAfterPut(s: seq<ShortItem>, it: ShortItem, p: nat)
    requires 4 <= p <= |s|
    ensures TeamPower(Put(s, p, it)) == TeamPower(s)
  {
    hide Put;
    forall j | 0 <= j < 4
      ensures Put(s, p, it)[j] == s[j]
    {
      PutAt(s, p, it, j);
    }
    SameTop(s, Put(s, p, it), 4);
  }

  /** An update that moves a role neither from nor to the top four leaves the team power as it was. */
  lemma PowerUnmoved(s: seq<ShortItem>, cap: nat, it: ShortItem)
    requires Descending(s) && DistinctKeys(s)
    requires !OnTop(RankOf(s, it.key)) && !OnTop(RankOf(Updated(s, cap, it), it.key))
    ensures TeamPower(Updated(s, cap, it)) == TeamPower(s)
  {
    hide WithoutKey, Put, Place, TeamPower, FindKey;
    if Updated(s, cap, it) != s {
      var rest := WithoutKey(s, it.key);
      WithoutKeySorted(s, it.key);
      var p := Place(rest, it.value);
      FindPut(rest, it, p);
      TopAfterRemoval(s, it.key);
      TopAfterPut(rest, it, p);
    }
  }

  lemma StepKeeps(t: Team, cap: nat, op: RoleOp)
    requires Sorted(t) && Truthful(t)
    ensures Sorted(Step(t, cap, op)) && Truthful(Step(t, cap, op))
  {
    hide Updated, WithoutKey, TeamPower, RankOf, Descending, DistinctKeys;
    match op
    case UpdateRole(id, power) =>
      var it := ShortItem(id, power);
      UpdatedSorted(t.roles, cap, it);
      if !OnTop(RankOf(t.roles, id)) && !OnTop(RankOf(Updated(t.roles, cap, it), id)) {
        PowerUnmoved(t.roles, cap, it);
      }
    case DeleteRole(id) =>
      WithoutKeySorted(t.roles, id);
      if !OnTop(RankOf(t.roles, id)) {
        TopAfterRemoval(t.roles, id);
      }
  }

  /** After any run of updates and deletions the published power is the sum of the top four, if that is positive. */
  lemma {:induction false} PublishedStaysTrue(t: Team, cap: nat, ops: seq<RoleOp>)
    requires Sorted(t) && Truthful(t)
    ensures Sorted(RunRoles(t, cap, ops)) && Truthful(RunRoles(t, cap, ops))
    decreases |ops|
  {
    if ops != [] {
      StepKeeps(t, cap, ops[0]);
      PublishedStaysTrue(Step(t, cap, ops[0]), cap, ops[1..]);
    }
  }

  /** Only a positive power is ever published. */
  ghost predicate Positive(t: Team) {
    t.published.Some? ==> t.published.value > 0
  }

  lemma {:induction false} PublishedPositive(t: Team, cap: nat, ops: seq<RoleOp>)
    requires Positive(t)
    ensures Positive(RunRoles(t, cap, ops))
    decreases |ops|
  {
    if ops != [] {
      PublishedPositive(Step(t, cap, ops[0]), cap, ops[1..]);
    }
  }

  /** After any run the published power is the team's exactly if the team has power at all. */
  lemma PublishedExactly(t: Team, cap: nat, ops: seq<RoleOp>)
    requires Sorted(t) && Truthful(t) && Positive(t)
    ensures var u := RunRoles(t, cap, ops);
      u.published == Some(TeamPower(u.roles)) <==> TeamPower(u.roles) > 0
  {
    PublishedStaysTrue(t, cap, ops);
    PublishedPositive(t, cap, ops);
  }

  /** A step that leaves the team without power leaves the published power as it was. */
  lemma PowerlessKeeps(t: Team, cap: nat, op: RoleOp)
    requires TeamPower(Step(t, cap, op).roles) <= 0
    ensures Step(t, cap, op).published == t.published
  {
    hide TeamPower, Updated, WithoutKey, RankOf;
  }

  /** A team of one role, and what is left without it. */
  lemma OneRole(it: ShortItem, cap: nat)
    requires cap > 0
    ensures Updated([], cap, it) == [it] && WithoutKey([it], it.key) == []
    ensures RankOf([it], it.key) == 1 && TeamPower([it]) == it.value && TeamPower([]) == 0
  {
    assert TopSum([it], 4) == TopSum([it], 3) == TopSum([it], 2) == TopSum([it], 1);
    assert TopSum([], 4) == TopSum([], 3) == TopSum([], 2) == TopSum([], 1);
  }

  lemma TwoSteps(t: Team, cap: nat, o: RoleOp, p: RoleOp)
    ensures RunRoles(t, cap, [o, p]) == Step(Step(t, cap, o), cap, p)
  {
    hide Step;
    assert [o, p][1..] == [p] && [p][1..] == [];
    var m := Step(t, cap, o);
    assert RunRoles(m, cap, [p]) == RunRoles(Step(m, cap, p), cap, []);
  }

  /** Such teams occur: when the last role goes, its power stays published. */
  lemma LastRoleLingers(id: int, power: int, cap: nat)
    requires power > 0 && cap > 0
    ensures var t := RunRoles(Team([], None), cap, [UpdateRole(id, power), DeleteRole(id)]);
      t.roles == [] && t.published == Some(power)
  {
    hide TeamPower, Updated, WithoutKey, RankOf, RunRoles;
    var it := ShortItem(id, power);
    OneRole(it, cap);
    TwoSteps(Team([], None), cap, UpdateRole(id, power), DeleteRole(id));
    assert Step(Team([], None), cap, UpdateRole(id, power)) == Team([it], Some(power));
  }

  /** The list after loading: every stored role with a positive power, in the order of the ids. */
  ghost function Loaded(s: seq<ShortItem>, cap: nat, ids: seq<int>, powers: map<int, int>): seq<ShortItem>
    requires forall i | 0 <= i < |ids| :: ids[i] in powers
  {
    if ids == [] then s else
      var n := |ids| - 1;
      var r := Loaded(s, cap, ids[..n], powers);
      if powers[ids[n]] > 0 then Updated(r, cap, ShortItem(ids[n], powers[ids[n]])) else r
  }

  class RolePowerRank {
    const ranks: ShortRankList
    var published: Option<int>

    ghost predicate Valid()
      reads this, ranks, ranks.items
    {
      ranks.Valid()
    }

    ghost function State(): Team
      requires Valid()
      reads this, ranks, ranks.items
    {
      Team(ranks.View(), published)
    }

    constructor (maxNum: nat)
      requires 0 < maxNum
      ensures Valid() && State() == Team([], None) && fresh(ranks) && fresh(ranks.items) && ranks.maxNum == maxNum
      ensures Sorted(State()) && Truthful(State())
    {
      ranks := new ShortRankList(maxNum);
      published := None;
    }

    /** Adds up the first four powers and publishes the sum, unless there is nothing to show. */
    method Publish()
      requires Valid()
      modifies this`published
      ensures Valid() && State() == Published(old(State()))
    {
      ghost var s := ranks.View();
      var power := 0;
      var r := 1;
      while r <= TOP_ROLES
        invariant 1 <= r <= TOP_ROLES + 1 && ranks.View() == s && published == old(published)
        invariant power == TopSum(s, r - 1)
      {
        var item := ranks.GetByRank(r);
        if item.Some? {
          power := power + item.value.value;
        }
        r := r + 1;
      }
      assert power == TeamPower(s);
      if power <= 0 {
        return;
      }
      published := Some(power);
    }

    method UpdateRolePowerRank(roleId: int, power: int)
      requires Valid()
      modifies this`published, ranks`keysMap, ranks`currNum, ranks.items
      ensures Valid() && State() == Step(old(State()), ranks.maxNum, UpdateRole(roleId, power))
    {
      hide ShortRankList.Valid, TeamPower, WithoutKey, Placed, FindKey;
      var before := ranks.GetRank(roleId);
      var _, _ := ranks.Update(ShortItem(roleId, power), false);
      var after := ranks.GetRank(roleId);
      if 1 <= before <= TOP_ROLES || 1 <= after <= TOP_ROLES {
        Publish();
      }
    }

    method DeleteRolePowerRank(roleId: int)
      requires Valid()
      modifies this`published, ranks`keysMap, ranks`currNum, ranks.items
      ensures Valid() && State() == Step(old(State()), ranks.maxNum, DeleteRole(roleId))
    {
      hide ShortRankList.Valid, TeamPower, WithoutKey, Placed, FindKey;
      var rank := ranks.GetRank(roleId);
      var _ := ranks.Delete(roleId);
      if 1 <= rank <= TOP_ROLES {
        Publish();
      }
    }

    /** Fills the list from the stored roles and publishes once at the end. */
    method LoadRolesPowerRankData(ids: seq<int>, powers: map<int, int>)
      requires Valid() && forall i | 0 <= i < |ids| :: ids[i] in powers
      modifies this`published, ranks`keysMap, ranks`currNum, ranks.items
      ensures Valid() && Truthful(State())
      ensures State() == Published(old(State()).(roles := Loaded(old(State()).roles, ranks.maxNum, ids, powers)))
    {
      hide TeamPower, WithoutKey, Placed, FindKey, Descending, DistinctKeys, Indexes;
      var i := 0;
      while i < |ids|
        invariant 0 <= i <= |ids| && Valid() && published == old(published)
        invariant ranks.View() == Loaded(old(ranks.View()), ranks.maxNum, ids[..i], powers)
      {
        assert ids[..i + 1][..i] == ids[..i];
        var power := powers[ids[i]];
        if power > 0 {
          var _, _ := ranks.Update(ShortItem(ids[i], power), false);
        }
        i := i + 1;
      }
      assert ids[..i] == ids;
      Publish();
    }
  }
}
