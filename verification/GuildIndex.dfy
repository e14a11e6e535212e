/** The guild manager's index: a dense array of live guild ids, and maps from ids and names. */
module GuildIndexes {
  import opened Options
  import opened Sequences

  const GUILD_MAX_NUM := 10000
  const RECOMMEND_NUM := 5

  /** The sequence after its last element took the place of element `i`. */
  ghost function SwapRemoved(s: seq<int>, i: nat): seq<int>
    requires i < |s|
  {
    s[i := s[|s| - 1]][..|s| - 1]
  }

  /** A removal loses exactly one element. */
  lemma SwapRemovedIs(s: seq<int>, i: nat)
    requires Distinct(s) && i < |s|
    ensures var r := SwapRemoved(s, i);
      Distinct(r) && forall x :: x in r <==> x in s && x != s[i]
  {
    var r, n := SwapRemoved(s, i), |s| - 1;
    forall x
      ensures x in r <==> x in s && x != s[i]
    {
      if x in s && x != s[i] {
        var j :| 0 <= j < |s| && s[j] == x;
        assert r[if j == n then i else j] == x;
      }
    }
  }

  /** No more distinct elements fit into a sequence than it has places. */
  lemma {:induction false} Fewer(a: seq<int>, b: seq<int>)
    requires Distinct(a) && Distinct(b) && forall i | 0 <= i < |a| :: a[i] in b
    ensures |a| <= |b|
    decreases |a|
  {
    if a != [] {
      var n := |a| - 1;
      assert a[n] in b;
      var j :| 0 <= j < |b| && b[j] == a[n];
      SwapRemovedIs(b, j);
      Fewer(a[..n], SwapRemoved(b, j));
    }
  }

  lemma NextPlace(i: nat, n: nat)
    requires i < n
    ensures (i + 1) % n == if i + 1 == n then 0 else i + 1
  {
  }

  /** The id `d` places after position `r`, around the end. */
  ghost function Around(ids: seq<int>, r: nat, d: nat): int
    requires ids != []
  {
    ids[(r + d) % |ids|]
  }

  lemma AroundIs(ids: seq<int>, r: nat, d: nat)
    requires r < |ids| && d < |ids|
    ensures Around(ids, r, d) == ids[if r + d < |ids| then r + d else r + d - |ids|]
  {
  }

  /** `id` is the first one from position `r` on, around the end, that is not picked yet. */
  ghost predicate FirstUnpicked(ids: seq<int>, picked: seq<int>, r: nat, id: int)
    requires ids != []
  {
    exists d | 0 <= d < |ids| ::
      Around(ids, r, d) == id && id !in picked && forall e | 0 <= e < d :: Around(ids, r, e) in picked
  }

  /** Some guild has the name. */
  ghost predicate Taken(names: map<int, string>, name: string) {
    exists g :: g in names && names[g] == name
  }

  /** Names lead to the guilds that bear them. */
  ghost predicate NamesLead(nameMap: map<string, int>, names: map<int, string>) {
    && (forall id | id in names :: names[id] in nameMap && nameMap[names[id]] == id)
    && (forall name | name in nameMap :: nameMap[name] in names && names[nameMap[name]] == name)
  }

  lemma NamesLeadStill(nameMap: map<string, int>, names: map<int, string>, id: int)
    requires NamesLead(nameMap, names) && id in names
    ensures NamesLead(nameMap - {names[id]}, names - {id})
  {
  }

  class GuildIndex {
    const guildIds: array<int>
    var guildNum: nat
    var guildIdMap: map<int, int>
    var guildNameMap: map<string, int>
    /** The name of every live guild. */
    ghost var names: map<int, string>

    ghost predicate Dense()
      reads this, guildIds
    {
      && guildIds.Length == GUILD_MAX_NUM && guildNum <= GUILD_MAX_NUM
      && Distinct(guildIds[..guildNum])
      && (forall i | 0 <= i < guildNum :: guildIds[i] in names)
      && (forall id | id in names :: id in guildIds[..guildNum])
    }

    ghost predicate Valid()
      reads this, guildIds
    {
      && Dense() && guildIdMap.Keys == names.Keys
      && (forall id | id in names :: 0 < id) && NamesLead(guildNameMap, names)
    }

    ghost function Ids(): seq<int>
      requires guildNum <= guildIds.Length
      reads this, guildIds
    {
      guildIds[..guildNum]
    }

    constructor ()
      ensures Valid() && names == map[] && fresh(guildIds)
    {
      guildIds := new int[GUILD_MAX_NUM](_ => 0);
      guildNum, guildIdMap, guildNameMap, names := 0, map[], map[], map[];
    }

    /** Lists a guild; refused if its id or its name is taken.  The array must not be full. */
    method AddGuild(id: int, name: string) returns (ok: bool)
      requires Valid() && guildNum < GUILD_MAX_NUM && 0 < id
      modifies this, guildIds
      ensures Valid() && ok == (id !in old(names) && !Taken(old(names), name))
      ensures names == if ok then old(names)[id := name] else old(names)
      ensures Ids() == if ok then old(Ids()) + [id] else old(Ids())
    {
      if id in guildIdMap {
        return false;
      }
      if name in guildNameMap {
        ghost var g := guildNameMap[name];
        assert g in names && names[g] == name;
        return false;
      }
      guildIds[guildNum] := id;
      guildNum := guildNum + 1;
      guildIdMap := guildIdMap[id := id];
      guildNameMap := guildNameMap[name := id];
      names := names[id := name];
      assert Ids() == old(Ids()) + [id];
      return true;
    }

    /** The last id fills the place of the one at position `i`. */
    method SwapOut(i: nat)
      requires i < guildNum <= guildIds.Length
      modifies this`guildNum, guildIds
      ensures guildNum == old(guildNum) - 1 && Ids() == SwapRemoved(old(Ids()), i)
    {
      guildIds[i] := guildIds[guildNum - 1];
      guildNum := guildNum - 1;
    }

    /** Where an id is in the array. */
    method Find(id: int) returns (i: nat)
      requires guildNum <= guildIds.Length
      ensures i <= guildNum && (i < guildNum ==> guildIds[i] == id)
      ensures i < guildNum <==> id in Ids()
    {
      i := 0;
      while i < guildNum
        invariant i <= guildNum && forall j | 0 <= j < i :: guildIds[j] != id
      {
        if guildIds[i] == id {
          return;
        }
        i := i + 1;
      }
    }

    /** Takes a guild off the list; the last id fills its place. */
    method RemoveGuild(id: int, name: string) returns (ok: bool)
      requires Valid() && (id in names ==> names[id] == name)
      modifies this, guildIds
      ensures Valid() && ok == (id in old(names)) && names == old(names) - {id} && guildNum <= old(guildNum)
      ensures if ok then exists i | 0 <= i < old(guildNum) :: old(guildIds[i]) == id && Ids() == SwapRemoved(old(Ids()), i)
        else Ids() == old(Ids())
    {
      if id !in guildIdMap {
        return false;
      }
      if name !in guildNameMap {
        return false;
      }
      NamesLeadStill(guildNameMap, names, id);
      hide NamesLead, Distinct, SwapRemoved;
      var i := Find(id);
      SwapRemovedIs(Ids(), i);
      if i < guildNum {
        SwapOut(i);
      }
      Unname(id, name);
      return true;
    }

    /** Forgets an id that has left the array, and its name. */
    method Unname(id: int, name: string)
      requires guildIds.Length == GUILD_MAX_NUM && guildNum <= GUILD_MAX_NUM && Distinct(Ids())
      requires forall x :: x in Ids() <==> x in names && x != id
      requires guildIdMap.Keys == names.Keys && (forall x | x in names :: 0 < x)
      requires NamesLead(guildNameMap - {name}, names - {id})
      modifies this`guildIdMap, this`guildNameMap, this`names
      ensures Valid() && names == old(names) - {id}
    {
      hide NamesLead, Distinct;
      assert forall j | 0 <= j < guildNum :: guildIds[j] in Ids();
      guildIdMap := guildIdMap - {id};
      guildNameMap := guildNameMap - {name};
      names := names - {id};
      assert forall x :: x in Ids() <==> x in names;
    }

    method HasGuildByName(name: string) returns (has: bool)
      requires Valid()
      ensures has <==> Taken(names, name)
    {
      if name in guildNameMap {
        ghost var g := guildNameMap[name];
        assert g in names && names[g] == name;
      }
      return name in guildNameMap;
    }

    /** The positions a probe starting at `r` passed before it came to `sr`. */
    ghost predicate Passed(r: nat, sr: nat, i: nat) {
      if r <= sr then r <= i < sr else r <= i || i < sr
    }

    method Has(picked: seq<int>, id: int) returns (has: bool)
      ensures has <==> id in picked
    {
      var n := 0;
      while n < |picked|
        invariant 0 <= n <= |picked| && forall j | 0 <= j < n :: picked[j] != id
      {
        if picked[n] == id {
          return true;
        }
        n := n + 1;
      }
      return false;
    }

    /** Looks for an id that is not picked yet, from position `r` on and around the end; fails after a whole round. */
    method Probe(picked: seq<int>, r: nat) returns (found: bool, sr: nat)
      requires guildNum <= guildIds.Length && r < guildNum
      ensures found ==> sr < guildNum && FirstUnpicked(Ids(), picked, r, guildIds[sr])
      ensures !found ==> forall i | 0 <= i < guildNum :: guildIds[i] in picked
    {
      sr := r;
      ghost var steps := 0;
      while true
        invariant sr < guildNum && 0 <= steps < guildNum
        invariant steps == if r <= sr then sr - r else guildNum - r + sr
        invariant forall i | 0 <= i < guildNum && Passed(r, sr, i) :: guildIds[i] in picked
        invariant forall e | 0 <= e < steps :: Around(Ids(), r, e) in picked
        decreases guildNum - steps
      {
        AroundIs(Ids(), r, steps);
        var has := Has(picked, guildIds[sr]);
        if !has {
          return true, sr;
        }
        ghost var was := sr;
        sr := (sr + 1) % guildNum;
        NextPlace(was, guildNum);
        if sr == r {
          return false, sr;
        }
        steps := steps + 1;
      }
    }

    /**
     Recommends guilds; `draws` are the random start positions.  Nothing is recommended to a player who
     is in a guild, or when there is none; otherwise five guilds, or all if there are fewer.
     */
    method Recommend(joined: bool, draws: seq<nat>) returns (result: Option<seq<int>>)
      requires Valid() && |draws| == RECOMMEND_NUM && forall i | 0 <= i < |draws| :: guildNum > 0 ==> draws[i] < guildNum
      ensures result.None? <==> joined || Ids() == []
      ensures result.Some? ==>
        && Distinct(result.value) && (forall i | 0 <= i < |result.value| :: result.value[i] in names)
        && |result.value| == (if guildNum < RECOMMEND_NUM then guildNum else RECOMMEND_NUM)
        && forall i | 0 <= i < |result.value| :: FirstUnpicked(Ids(), result.value[..i], draws[i], result.value[i])
    {
      if joined {
        return None;
      }
      if guildNum == 0 {
        return None;
      }
      var picked: seq<int> := [];
      var i := 0;
      while i < RECOMMEND_NUM
        invariant 0 <= i <= RECOMMEND_NUM && |picked| == i
        invariant Distinct(picked) && forall j | 0 <= j < |picked| :: picked[j] in Ids()
        invariant forall j | 0 <= j < i :: FirstUnpicked(Ids(), picked[..j], draws[j], picked[j])
      {
        var found, sr := Probe(picked, draws[i]);
        if !found {
          Fewer(Ids(), picked);
          Fewer(picked, Ids());
          return Some(picked);
        }
        assert guildIds[sr] in Ids();
        if guildIds[sr] <= 0 {
          break;
        }
        ghost var was := picked;
        picked := picked + [guildIds[sr]];
        assert forall j | 0 <= j <= i :: picked[..j] == was[..j];
        i := i + 1;
      }
      Fewer(picked, Ids());
      return Some(picked);
    }
  }
}
