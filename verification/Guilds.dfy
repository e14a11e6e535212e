/** The guild manager: rows and players' guild columns, kept in step with the index of live guilds. */
module Guilds {
  import GuildIndexes
  import opened GuildMeaning
  import opened GuildRules
  import opened Options
  import opened Sequences

  /** The names of the live guilds. */
  ghost function LiveNames(rows: map<int, Row>): map<int, string> {
    map g | g in rows && rows[g].existType != Deleted :: rows[g].name
  }

  lemma LiveNamesMore(rows: map<int, Row>, g: int, r: Row)
    requires r.existType != Deleted
    ensures LiveNames(rows[g := r]) == LiveNames(rows)[g := r.name]
    ensures g !in rows ==> g !in LiveNames(rows)
  {
  }

  class GuildManager {
    const rules: Rules
    const index: GuildIndexes.GuildIndex
    var rows: map<int, Row>
    var players: map<int, Affiliation>

    ghost function State(): World
      reads this
    {
      World(rows, players)
    }

    /** The index lists exactly the live guilds under their names. */
    ghost predicate Valid()
      reads this, index, index.guildIds
    {
      index.Valid() && index.names == LiveNames(rows)
    }

    /** A server without guilds; no player is in one. */
    constructor (rules: Rules, playerIds: set<int>)
      ensures Valid() && Inv(rules, State()) && this.rules == rules && rows == map[] && players.Keys == playerIds
      ensures fresh(index) && fresh(index.guildIds)
    {
      this.rules := rules;
      index := new GuildIndexes.GuildIndex();
      rows := map[];
      players := map p | p in playerIds :: Affiliation(0, MEMBER, 0);
    }

    /** Frees all members of a guild. */
    method ReleaseAll(members: set<int>)
      modifies this`players
      ensures players == Released(old(players), members)
    {
      var left := members;
      while exists id :: id in left
        invariant left <= members
        invariant players == Released(old(players), members - left)
        decreases |left|
      {
        var id :| id in left;
        left := left - {id};
        ghost var done := members - left;
        if id in players {
          players := players[id := Affiliation(0, MEMBER, 0)];
        }
        assert players == Released(old(players), done);
      }
      assert left == {} && members - left == members;
    }

    /** Removes a lapsed guild: its members are freed, and the index forgets it. */
    method Expire(g: int)
      requires Valid() && Live(State(), g)
      modifies this`rows, this`players, index, index.guildIds
      ensures Valid() && State() == Removed(old(State()), g) && index.guildNum <= old(index.guildNum)
    {
      var r := rows[g];
      ReleaseAll(r.members);
      rows := rows[g := r.(existType := Deleted, members := {}, asks := {})];
      var _ := index.RemoveGuild(g, r.name);
      assert index.names == LiveNames(rows);
    }

    /** Finds a guild that is not deleted; one whose dismissal has taken effect is removed first. */
    method GetGuild(g: int, now: int) returns (found: bool)
      requires Valid()
      modifies this`rows, this`players, index, index.guildIds
      ensures Valid() && State() == Lapse(rules, old(State()), g, now) && found == Live(State(), g)
      ensures Checked(rules, old(State()), State(), g, now)
      ensures found == (Live(old(State()), g) && !Over(rules, old(State()), g, now))
      ensures index.guildNum <= old(index.guildNum)
    {
      LapseMeans(rules, State(), g, now);
      if g !in rows {
        return false;
      }
      if Lapsing(rules, rows[g], now) {
        Expire(g);
      }
      return rows[g].existType != Deleted;
    }

    /** The guild a player acts in. */
    method GetGuildFor(p: int, asPresident: bool, now: int) returns (guild: Option<int>)
      requires Valid()
      modifies this`rows, this`players, index, index.guildIds
      ensures Valid() && Got(State(), guild) == GetGuildOf(rules, old(State()), p, asPresident, now)
      ensures guild.Some? ==> p in players && Live(State(), guild.value)
    {
      if p !in players {
        return None;
      }
      var g := players[p].guildId;
      if g <= 0 {
        return None;
      }
      var found := GetGuild(g, now);
      if !found || (asPresident && rows[g].president != p) {
        return None;
      }
      Repair(p, g);
      return Some(g);
    }

    method Repair(p: int, g: int)
      requires Valid() && Live(State(), g) && p in players
      modifies this`rows, this`players
      ensures Valid() && State() == Repaired(old(State()), p, g)
    {
      var position := players[p].position;
      if position <= MEMBER && rows[g].president == p {
        players := players[p := players[p].(position := PRESIDENT)];
      } else if position == PRESIDENT && rows[g].president != p {
        rows := rows[g := rows[g].(president := p)];
      }
      if rows[g].president == p && p !in rows[g].members {
        rows := rows[g := rows[g].(members := rows[g].members + {p})];
      }
      assert LiveNames(rows) == LiveNames(old(rows));
    }

    /** What a request will lead to, and what a lookup of the player's guild will find. */
    lemma Foretell(p: int, now: int, request: Request)
      ensures Inv(rules, State()) ==>
        var w := State();
        && Answered(rules, w, p, now, request, Granted(rules, w, p, now, request), Step(rules, w, p, now, request))
        && (GetGuildOf(rules, w, p, false, now).guild.Some? <==> Acts(rules, w, p, now))
        && (GetGuildOf(rules, w, p, true, now).guild.Some? <==> Leads(rules, w, p, now))
        && (forall b :: GetGuildOf(rules, w, p, b, now).guild.Some? ==>
             GetGuildOf(rules, w, p, b, now) == Got(w, Some(Home(w, p))))
        && 0 <= Home(w, p) && !Live(w, 0)
        && (forall g, q | Live(w, g) && q in w.rows[g].members :: q in w.players && Home(w, q) == g)
    {
      if Inv(rules, State()) {
        StepMeans(rules, State(), p, now, request);
        FoundExactly(rules, State(), p, false, now);
        FoundExactly(rules, State(), p, true, now);
        MembersKnown(rules, State(), p);
      }
    }

    /** Founds a guild.  The index must have room; the id comes from a counter and is new. */
    method CreateGuild(p: int, name: string, newId: int, now: int) returns (ok: bool)
      requires Valid() && 0 < newId && index.guildNum < GuildIndexes.GUILD_MAX_NUM
      modifies this`rows, this`players, index, index.guildIds
      ensures Valid() && State() == Step(rules, old(State()), p, now, Create(name, newId))
      ensures Inv(rules, old(State())) ==> Answered(rules, old(State()), p, now, Create(name, newId), ok, State())
      ensures ok ==> newId !in old(rows) && Live(State(), newId)
    {
      Foretell(p, now, Create(name, newId));
      hide Inv, Effect, Refused, GetGuildOf;
      if p !in players || |name| > rules.nameLength {
        return false;
      }
      var taken := index.HasGuildByName(name);
      NamesAgree(name);
      if taken {
        return false;
      }
      var g := players[p].guildId;
      LapseMeans(rules, State(), g, now);
      if g > 0 {
        var found := GetGuild(g, now);
        if found {
          return false;
        }
      }
      if newId in rows {
        return false;
      }
      Found(p, name, newId);
      return true;
    }

    /** Whether the index knows a name is whether a live guild has it. */
    lemma NamesAgree(name: string)
      requires Valid()
      ensures GuildIndexes.Taken(index.names, name) <==> !NameFree(State(), name)
    {
      if !NameFree(State(), name) {
        var g :| Live(State(), g) && rows[g].name == name;
        assert g in index.names && index.names[g] == name;
      }
    }

    method Found(p: int, name: string, newId: int)
      requires Valid() && 0 < newId && index.guildNum < GuildIndexes.GUILD_MAX_NUM
      requires p in players && newId !in rows && NameFree(State(), name)
      modifies this`rows, this`players, index, index.guildIds
      ensures Valid() && State() == Founded(old(State()), p, name, newId)
    {
      NamesAgree(name);
      LiveNamesMore(rows, newId, Row(name, 1, 0, p, Exists, 0, {p}, {}));
      hide NameFree, GuildIndexes.GuildIndex.Valid, GuildIndexes.Taken, LiveNames;
      rows := rows[newId := Row(name, 1, 0, p, Exists, 0, {p}, {})];
      players := players[p := players[p].(guildId := newId, position := PRESIDENT)];
      var _ := index.AddGuild(newId, name);
    }

    method AskToJoin(p: int, g: int, now: int) returns (ok: bool)
      requires Valid() && p in players
      modifies this`rows, this`players, index, index.guildIds
      ensures Valid() && State() == Step(rules, old(State()), p, now, AskJoin(g))
      ensures Inv(rules, old(State())) ==> Answered(rules, old(State()), p, now, AskJoin(g), ok, State())
      ensures ok ==> Live(State(), g) && p in rows[g].asks && p !in rows[g].members
    {
      Foretell(p, now, AskJoin(g));
      hide Inv, Effect, Refused, GetGuildOf;
      LapseMeans(rules, State(), g, now);
      if Cooling(rules, players[p], now) || players[p].guildId > 0 {
        return false;
      }
      var found := GetGuild(g, now);
      if !found || p in rows[g].members {
        return false;
      }
      SetRow(g, rows[g].(asks := rows[g].asks + {p}));
      return true;
    }

    /** Writes columns other than the name and whether the guild is deleted. */
    method SetRow(g: int, r: Row)
      requires Valid() && Live(State(), g) && r.name == rows[g].name && r.existType != Deleted
      modifies this`rows
      ensures Valid() && rows == old(rows)[g := r]
    {
      rows := rows[g := r];
      assert LiveNames(rows) == LiveNames(old(rows));
    }

    /** Lets players who asked join, or refuses them; there must be room for as many as are named. */
    method AgreeJoin(p: int, ids: seq<int>, refuse: bool, now: int) returns (ok: bool)
      requires Valid()
      modifies this`rows, this`players, index, index.guildIds
      ensures Valid() && State() == Step(rules, old(State()), p, now, Agree(ids, refuse))
      ensures Inv(rules, old(State())) ==> Answered(rules, old(State()), p, now, Agree(ids, refuse), ok, State())
    {
      Foretell(p, now, Agree(ids, refuse));
      hide Inv, Effect, Refused, GetGuildOf;
      if ids == [] {
        return false;
      }
      var guild := GetGuildFor(p, false, now);
      if guild.None? {
        return false;
      }
      var g := guild.value;
      if !refuse && !HasRoom(rules, World(rows, players), g, |ids|) {
        return false;
      }
      if players[p].position <= MEMBER {
        return false;
      }
      AgreeEach(g, ids, refuse);
      return true;
    }

    method AgreeEach(g: int, ids: seq<int>, refuse: bool)
      requires Valid() && Live(State(), g)
      modifies this`rows, this`players
      ensures Valid() && State() == AgreeAll(old(State()), g, refuse, ids)
    {
      var i := 0;
      while i < |ids|
        invariant 0 <= i <= |ids| && Valid() && Live(State(), g)
        invariant State() == AgreeAll(old(State()), g, refuse, ids[..i])
      {
        assert ids[..i + 1][..i] == ids[..i];
        var id, r := ids[i], rows[g];
        if refuse {
          SetRow(g, r.(asks := r.asks - {id}));
        } else if id in players && id in r.asks && id !in r.members && players[id].guildId <= 0 {
          SetRow(g, r.(members := r.members + {id}, asks := r.asks - {id}));
          players := players[id := players[id].(guildId := g)];
        }
        i := i + 1;
      }
      assert ids[..i] == ids;
    }

    /** A member leaves; the president cannot. */
    method QuitGuild(p: int, now: int) returns (ok: bool)
      requires Valid()
      modifies this`rows, this`players, index, index.guildIds
      ensures Valid() && State() == Step(rules, old(State()), p, now, Quit)
      ensures Inv(rules, old(State())) ==> Answered(rules, old(State()), p, now, Quit, ok, State())
      ensures ok ==> p in players && players[p].guildId == 0
    {
      Foretell(p, now, Quit);
      hide Inv, Effect, Refused, GetGuildOf;
      var guild := GetGuildFor(p, false, now);
      if guild.None? {
        return false;
      }
      var g := guild.value;
      if rows[g].president == p {
        return false;
      }
      SetRow(g, rows[g].(members := rows[g].members - {p}));
      ClearGuildData(p, now);
      return true;
    }

    method ClearGuildData(p: int, now: int)
      modifies this`players
      ensures players == old(players)[p := Affiliation(0, MEMBER, now)]
    {
      players := players[p := Affiliation(0, MEMBER, now)];
    }

    /** The president makes members officers, or ordinary members again. */
    method SetOfficers(p: int, ids: seq<int>, setType: int, now: int) returns (ok: bool)
      requires Valid()
      modifies this`rows, this`players, index, index.guildIds
      ensures Valid() && State() == Step(rules, old(State()), p, now, SetOfficer(ids, setType))
      ensures Inv(rules, old(State())) ==> Answered(rules, old(State()), p, now, SetOfficer(ids, setType), ok, State())
    {
      Foretell(p, now, SetOfficer(ids, setType));
      hide Inv, Effect, Refused, GetGuildOf;
      var guild := GetGuildFor(p, true, now);
      if guild.None? {
        return false;
      }
      AppointEach(guild.value, p, PositionFor(setType), ids);
      return true;
    }

    method AppointEach(g: int, actor: int, position: int, ids: seq<int>)
      requires Valid() && Live(State(), g)
      modifies this`players
      ensures Valid() && State() == AppointAll(old(State()), g, actor, position, ids)
    {
      var i := 0;
      while i < |ids|
        invariant 0 <= i <= |ids|
        invariant State() == AppointAll(old(State()), g, actor, position, ids[..i])
      {
        assert ids[..i + 1][..i] == ids[..i];
        var id := ids[i];
        if id != actor && id in rows[g].members && id in players {
          players := players[id := players[id].(position := position)];
        }
        i := i + 1;
      }
      assert ids[..i] == ids;
    }

    /** Officers and the president expel ordinary members. */
    method KickMembers(p: int, ids: seq<int>, now: int) returns (ok: bool)
      requires Valid()
      modifies this`rows, this`players, index, index.guildIds
      ensures Valid() && State() == Step(rules, old(State()), p, now, Kick(ids))
      ensures Inv(rules, old(State())) ==> Answered(rules, old(State()), p, now, Kick(ids), ok, State())
    {
      Foretell(p, now, Kick(ids));
      hide Inv, Effect, Refused, GetGuildOf;
      var guild := GetGuildFor(p, false, now);
      if guild.None? {
        return false;
      }
      if players[p].position <= MEMBER {
        return false;
      }
      KickEach(guild.value, p, ids, now);
      return true;
    }

    method KickEach(g: int, actor: int, ids: seq<int>, now: int)
      requires Valid() && Live(State(), g)
      modifies this`rows, this`players
      ensures Valid() && State() == KickAll(old(State()), g, actor, ids, now)
    {
      var i := 0;
      while i < |ids|
        invariant 0 <= i <= |ids| && Valid() && Live(State(), g)
        invariant State() == KickAll(old(State()), g, actor, ids[..i], now)
      {
        assert ids[..i + 1][..i] == ids[..i];
        var id := ids[i];
        if id != actor && id in rows[g].members && id in players && players[id].position == MEMBER {
          SetRow(g, rows[g].(members := rows[g].members - {id}));
          ClearGuildData(id, now);
        }
        i := i + 1;
      }
      assert ids[..i] == ids;
    }

    /** The president hands the guild to another member. */
    method HandOver(p: int, q: int, now: int) returns (ok: bool)
      requires Valid()
      modifies this`rows, this`players, index, index.guildIds
      ensures Valid() && State() == Step(rules, old(State()), p, now, ChangePresident(q))
      ensures Inv(rules, old(State())) ==> Answered(rules, old(State()), p, now, ChangePresident(q), ok, State())
    {
      Foretell(p, now, ChangePresident(q));
      hide Inv, Effect, Refused, GetGuildOf;
      if q == p || q !in players {
        return false;
      }
      var guild := GetGuildFor(p, true, now);
      if guild.None? {
        return false;
      }
      var g := guild.value;
      if q !in rows[g].members {
        return false;
      }
      SetRow(g, rows[g].(president := q));
      players := players[p := players[p].(position := MEMBER)];
      players := players[q := players[q].(position := PRESIDENT)];
      return true;
    }

    method DismissGuild(p: int, now: int) returns (ok: bool)
      requires Valid()
      modifies this`rows, this`players, index, index.guildIds
      ensures Valid() && State() == Step(rules, old(State()), p, now, Dismiss)
      ensures Inv(rules, old(State())) ==> Answered(rules, old(State()), p, now, Dismiss, ok, State())
    {
      Foretell(p, now, Dismiss);
      hide Inv, Effect, Refused, GetGuildOf;
      var guild := GetGuildFor(p, true, now);
      if guild.None? || rows[guild.value].existType != Exists {
        return false;
      }
      SetRow(guild.value, rows[guild.value].(dismissTime := now, existType := WillDelete));
      return true;
    }

    method CancelDismissGuild(p: int, now: int) returns (ok: bool)
      requires Valid()
      modifies this`rows, this`players, index, index.guildIds
      ensures Valid() && State() == Step(rules, old(State()), p, now, CancelDismiss)
      ensures Inv(rules, old(State())) ==> Answered(rules, old(State()), p, now, CancelDismiss, ok, State())
    {
      Foretell(p, now, CancelDismiss);
      hide Inv, Effect, Refused, GetGuildOf;
      var guild := GetGuildFor(p, true, now);
      if guild.None? || rows[guild.value].existType != WillDelete {
        return false;
      }
      SetRow(guild.value, rows[guild.value].(dismissTime := 0, existType := Exists));
      return true;
    }

    /** Adds experience, level by level. */
    method GuildAddExp(p: int, addExp: nat, now: int) returns (ok: bool)
      requires Valid()
      modifies this`rows, this`players, index, index.guildIds
      ensures Valid() && State() == Step(rules, old(State()), p, now, AddExp(addExp))
      ensures Inv(rules, old(State())) ==> Answered(rules, old(State()), p, now, AddExp(addExp), ok, State())
    {
      Foretell(p, now, AddExp(addExp));
      hide Inv, Effect, Refused, GetGuildOf;
      var guild := GetGuildFor(p, false, now);
      if guild.None? {
        return false;
      }
      var r := rows[guild.value];
      var level, exp := LevelUp(if r.level <= 0 then 1 else r.level, r.exp + addExp);
      SetRow(guild.value, r.(level := level, exp := exp));
      return true;
    }

    method LevelUp(level0: int, exp0: nat) returns (level: int, exp: nat)
      ensures Growth(level, exp) == Grow(rules, level0, exp0)
    {
      level, exp := level0, exp0;
      while true
        invariant Grow(rules, level, exp) == Grow(rules, level0, exp0)
        decreases exp
      {
        if level !in rules.levels || rules.levels[level].exp <= 0 {
          break;
        }
        if rules.levels[level].exp > exp {
          break;
        }
        exp := exp - rules.levels[level].exp;
        level := level + 1;
      }
    }

    /** The id array lists every live guild once, and no other. */
    lemma IndexIsLive(g: int)
      requires Valid()
      ensures Distinct(index.Ids()) && (g in index.Ids() <==> Live(State(), g))
    {
      assert g in index.names <==> Live(State(), g);
    }
  }
}
