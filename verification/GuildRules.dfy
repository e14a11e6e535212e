/** What the guild operations do to guild rows and players' guild data, without locks and messages. */
module GuildRules {
  import opened Options

  const MEMBER := 0
  const PRESIDENT := 1
  const OFFICER := 2

  datatype ExistType = Exists | WillDelete | Deleted

  datatype Row = Row(name: string, level: int, exp: nat, president: int, existType: ExistType, dismissTime: int,
    members: set<int>, asks: set<int>)

  /** A player's guild columns; guild 0 is none. */
  datatype Affiliation = Affiliation(guildId: int, position: int, quitTime: int)

  datatype World = World(rows: map<int, Row>, players: map<int, Affiliation>)

  datatype LevelData = LevelData(exp: int, memberNum: int)

  datatype Rules = Rules(nameLength: nat, waiting: int, quitCooldown: int, levels: map<int, LevelData>)

  datatype Request =
    | Create(name: string, newId: int)
    | Look(guildId: int)
    | AskJoin(guildId: int)
    | Agree(ids: seq<int>, refuse: bool)
    | Quit
    | SetOfficer(ids: seq<int>, setType: int)
    | Kick(ids: seq<int>)
    | ChangePresident(playerId: int)
    | Dismiss
    | CancelDismiss
    | AddExp(exp: nat)

  /** The table of levels starts at 1, has room for a founder, and leads on without losing places. */
  ghost predicate GoodRules(rules: Rules) {
    && 1 in rules.levels && 1 <= rules.levels[1].memberNum
    && forall l | l in rules.levels && rules.levels[l].exp > 0 ::
         l + 1 in rules.levels && rules.levels[l].memberNum <= rules.levels[l + 1].memberNum
  }

  predicate Live(w: World, g: int) {
    g in w.rows && w.rows[g].existType != Deleted
  }

  /** A player is in a guild exactly if it is live and lists the player; without a guild the position is 0. */
  ghost predicate PlayerOk(w: World, p: int) {
    p in w.players ==>
      var a := w.players[p];
      if a.guildId == 0 then a.position == MEMBER else Live(w, a.guildId) && p in w.rows[a.guildId].members
  }

  /** All members know their guild, exactly the row's president has that position, and the members fit the level. */
  ghost predicate GuildOk(rules: Rules, w: World, g: int) {
    g in w.rows ==>
      var r := w.rows[g];
      && 0 < g && (r.existType == Deleted ==> r.members == {})
      && (forall p | p in r.members ::
           p in w.players && w.players[p].guildId == g && (w.players[p].position == PRESIDENT <==> p == r.president))
      && (r.existType != Deleted ==>
           r.president in r.members && 1 <= r.level && r.level in rules.levels && |r.members| <= rules.levels[r.level].memberNum)
  }

  ghost predicate NamesOk(w: World) {
    forall g, h | Live(w, g) && Live(w, h) && w.rows[g].name == w.rows[h].name :: g == h
  }

  ghost predicate Inv(rules: Rules, w: World) {
    && (forall p | p in w.players :: PlayerOk(w, p))
    && (forall g | g in w.rows :: GuildOk(rules, w, g))
    && NamesOk(w)
  }

  // ---- dismissal

  /** A dismissed guild whose waiting time is over. */
  predicate Lapsing(rules: Rules, r: Row, now: int) {
    r.existType == WillDelete && rules.waiting <= now - r.dismissTime
  }

  /** Looking at a guild finds out that it lapsed: it is removed and its members are free. */
  ghost function Lapse(rules: Rules, w: World, g: int, now: int): World {
    if g in w.rows && Lapsing(rules, w.rows[g], now) then Removed(w, g) else w
  }

  ghost function Removed(w: World, g: int): World
    requires g in w.rows
  {
    var r := w.rows[g];
    World(w.rows[g := r.(existType := Deleted, members := {}, asks := {})], Released(w.players, r.members))
  }

  ghost function Released(players: map<int, Affiliation>, members: set<int>): map<int, Affiliation> {
    map p | p in players :: if p in members then Affiliation(0, MEMBER, 0) else players[p]
  }

  lemma RemovedKeeps(rules: Rules, w: World, g: int)
    requires Inv(rules, w) && g in w.rows
    ensures Inv(rules, Removed(w, g)) && !Live(Removed(w, g), g)
    ensures forall h | h != g :: Live(Removed(w, g), h) == Live(w, h)
  {
    var v := Removed(w, g);
    assert GuildOk(rules, w, g);
    forall p | p in v.players
      ensures PlayerOk(v, p)
    {
      assert PlayerOk(w, p);
    }
    forall h | h in v.rows
      ensures GuildOk(rules, v, h)
    {
      assert GuildOk(rules, w, h);
    }
  }

  lemma LapseKeeps(rules: Rules, w: World, g: int, now: int)
    requires Inv(rules, w)
    ensures Inv(rules, Lapse(rules, w, g, now))
  {
    if g in w.rows {
      RemovedKeeps(rules, w, g);
    }
  }

  // ---- single steps

  /** A player's columns change without touching guild and presidency. */
  ghost function SetPosition(w: World, p: int, position: int): World
    requires p in w.players
  {
    w.(players := w.players[p := w.players[p].(position := position)])
  }

  ghost function Join(w: World, g: int, p: int): World
    requires g in w.rows && p in w.players
  {
    World(w.rows[g := w.rows[g].(members := w.rows[g].members + {p}, asks := w.rows[g].asks - {p})],
      w.players[p := w.players[p].(guildId := g)])
  }

  ghost function Leave(w: World, g: int, p: int, now: int): World
    requires g in w.rows && p in w.players
  {
    World(w.rows[g := w.rows[g].(members := w.rows[g].members - {p})],
      w.players[p := Affiliation(0, MEMBER, now)])
  }

  ghost function Founded(w: World, p: int, name: string, newId: int): World
    requires p in w.players
  {
    World(w.rows[newId := Row(name, 1, 0, p, Exists, 0, {p}, {})],
      w.players[p := w.players[p].(guildId := newId, position := PRESIDENT)])
  }

  ghost function HandedOver(w: World, g: int, p: int, q: int): World
    requires g in w.rows && p in w.players && q in w.players
  {
    SetPosition(SetPosition(w.(rows := w.rows[g := w.rows[g].(president := q)]), p, MEMBER), q, PRESIDENT)
  }

  lemma JoinKeeps(rules: Rules, w: World, g: int, p: int)
    requires Inv(rules, w) && Live(w, g) && p in w.players && w.players[p].guildId == 0
    requires |w.rows[g].members| < rules.levels[w.rows[g].level].memberNum || w.rows[g].level !in rules.levels
    ensures Inv(rules, Join(w, g, p)) && Live(Join(w, g, p), g)
  {
    var v := Join(w, g, p);
    assert GuildOk(rules, w, g) && PlayerOk(w, p);
    forall q | q in v.players
      ensures PlayerOk(v, q)
    {
      assert PlayerOk(w, q);
    }
    forall h | h in v.rows
      ensures GuildOk(rules, v, h)
    {
      assert GuildOk(rules, w, h);
    }
  }

  lemma LeaveKeeps(rules: Rules, w: World, g: int, p: int, now: int)
    requires Inv(rules, w) && Live(w, g) && p in w.rows[g].members && p in w.players && p != w.rows[g].president
    ensures Inv(rules, Leave(w, g, p, now)) && Live(Leave(w, g, p, now), g)
  {
    var v := Leave(w, g, p, now);
    assert GuildOk(rules, w, g) && PlayerOk(w, p);
    forall q | q in v.players
      ensures PlayerOk(v, q)
    {
      assert PlayerOk(w, q);
    }
    forall h | h in v.rows
      ensures GuildOk(rules, v, h)
    {
      assert GuildOk(rules, w, h);
    }
  }

  lemma AppointKeeps(rules: Rules, w: World, g: int, p: int, position: int)
    requires Inv(rules, w) && Live(w, g) && p in w.rows[g].members && p in w.players
    requires p != w.rows[g].president && position != PRESIDENT
    ensures Inv(rules, SetPosition(w, p, position))
  {
    var v := SetPosition(w, p, position);
    assert GuildOk(rules, w, g) && PlayerOk(w, p);
    forall q | q in v.players
      ensures PlayerOk(v, q)
    {
      assert PlayerOk(w, q);
    }
    forall h | h in v.rows
      ensures GuildOk(rules, v, h)
    {
      assert GuildOk(rules, w, h);
    }
  }

  lemma HandOverKeeps(rules: Rules, w: World, g: int, p: int, q: int)
    requires Inv(rules, w) && Live(w, g) && w.rows[g].president == p && q in w.rows[g].members && p != q
    requires p in w.players && q in w.players
    ensures Inv(rules, HandedOver(w, g, p, q))
  {
    var v := HandedOver(w, g, p, q);
    assert GuildOk(rules, w, g) && PlayerOk(w, p) && PlayerOk(w, q);
    forall x | x in v.players
      ensures PlayerOk(v, x)
    {
      assert PlayerOk(w, x);
    }
    forall h | h in v.rows
      ensures GuildOk(rules, v, h)
    {
      assert GuildOk(rules, w, h);
    }
  }

  lemma FoundedKeeps(rules: Rules, w: World, p: int, name: string, newId: int)
    requires GoodRules(rules) && Inv(rules, w) && p in w.players && w.players[p].guildId == 0
    requires newId !in w.rows && 0 < newId && forall g | Live(w, g) :: w.rows[g].name != name
    ensures Inv(rules, Founded(w, p, name, newId))
  {
    var v := Founded(w, p, name, newId);
    assert PlayerOk(w, p);
    forall q | q in v.players
      ensures PlayerOk(v, q)
    {
      assert PlayerOk(w, q);
    }
    forall h | h in v.rows
      ensures GuildOk(rules, v, h)
    {
      assert h in w.rows ==> GuildOk(rules, w, h);
    }
    forall g, h | Live(v, g) && Live(v, h) && v.rows[g].name == v.rows[h].name
      ensures g == h
    {
      assert g != newId ==> Live(w, g);
      assert h != newId ==> Live(w, h);
    }
  }

  /** Columns that say nothing about membership, presidency or the name may change; the level only for a larger limit. */
  lemma RowKeeps(rules: Rules, w: World, g: int, r: Row)
    requires Inv(rules, w) && Live(w, g) && r.existType != Deleted
    requires var s := w.rows[g]; r.name == s.name && r.president == s.president && r.members == s.members
    requires 1 <= r.level && r.level in rules.levels
    requires w.rows[g].level in rules.levels ==>
      rules.levels[w.rows[g].level].memberNum <= rules.levels[r.level].memberNum
    ensures Inv(rules, w.(rows := w.rows[g := r]))
  {
    var v := w.(rows := w.rows[g := r]);
    assert GuildOk(rules, w, g);
    forall q | q in v.players
      ensures PlayerOk(v, q)
    {
      assert PlayerOk(w, q);
    }
    forall h | h in v.rows
      ensures GuildOk(rules, v, h)
    {
      assert GuildOk(rules, w, h);
    }
  }

  // ---- the guild a player acts in

  /** What a lookup leaves behind, and the guild it found. */
  datatype Got = Got(world: World, guild: Option<int>)

  /** Puts right a president's missing position, a president's position without the row, and a president who is no member. */
  ghost function Repaired(w: World, p: int, g: int): World
    requires p in w.players && g in w.rows
  {
    var position := w.players[p].position;
    var v :=
      if position <= MEMBER && w.rows[g].president == p then SetPosition(w, p, PRESIDENT)
      else if position == PRESIDENT && w.rows[g].president != p then w.(rows := w.rows[g := w.rows[g].(president := p)])
      else w;
    if v.rows[g].president == p && p !in v.rows[g].members
    then v.(rows := v.rows[g := v.rows[g].(members := v.rows[g].members + {p})])
    else v
  }

  ghost function GetGuildOf(rules: Rules, w: World, p: int, asPresident: bool, now: int): (r: Got)
    ensures r.world.players.Keys == w.players.Keys
    ensures r.guild.Some? ==> p in w.players && r.guild.value in r.world.rows
  {
    if p !in w.players || w.players[p].guildId <= 0 then Got(w, None) else
      var g := w.players[p].guildId;
      var v := Lapse(rules, w, g, now);
      if !Live(v, g) || (asPresident && v.rows[g].president != p) then Got(v, None)
      else Got(Repaired(v, p, g), Some(g))
  }

  /** In an orderly world the repairs have nothing to do. */
  lemma RepairIdle(rules: Rules, w: World, p: int)
    requires Inv(rules, w) && p in w.players && w.players[p].guildId > 0
    ensures Live(w, w.players[p].guildId) && p in w.rows[w.players[p].guildId].members
    ensures Repaired(w, p, w.players[p].guildId) == w
  {
    assert PlayerOk(w, p);
    assert GuildOk(rules, w, w.players[p].guildId);
  }

  /** A lookup changes nothing but that a guild may lapse, and finds a guild the player is in. */
  lemma LookupKeeps(rules: Rules, w: World, p: int, asPresident: bool, now: int)
    requires Inv(rules, w)
    ensures var got := GetGuildOf(rules, w, p, asPresident, now);
      && Inv(rules, got.world)
      && (got.guild.Some? ==>
        && got.world == w && p in w.players && w.players[p].guildId == got.guild.value && Live(w, got.guild.value)
        && p in w.rows[got.guild.value].members && (asPresident ==> w.rows[got.guild.value].president == p))
  {
    if p in w.players && w.players[p].guildId > 0 {
      var g := w.players[p].guildId;
      RepairIdle(rules, w, p);
      if Lapsing(rules, w.rows[g], now) {
        RemovedKeeps(rules, w, g);
      }
    }
  }

  // ---- lists of players

  ghost function AgreeOne(w: World, g: int, refuse: bool, p: int): World
    requires g in w.rows
  {
    var r := w.rows[g];
    if refuse then w.(rows := w.rows[g := r.(asks := r.asks - {p})])
    else if p !in w.players || p !in r.asks || p in r.members || w.players[p].guildId > 0 then w
    else Join(w, g, p)
  }

  ghost function AgreeAll(w: World, g: int, refuse: bool, ids: seq<int>): (v: World)
    requires g in w.rows
    ensures g in v.rows
  {
    if ids == [] then w else AgreeOne(AgreeAll(w, g, refuse, ids[..|ids| - 1]), g, refuse, ids[|ids| - 1])
  }

  ghost function KickOne(w: World, g: int, actor: int, p: int, now: int): World
    requires g in w.rows
  {
    if p == actor || p !in w.rows[g].members || p !in w.players || w.players[p].position != MEMBER then w
    else Leave(w, g, p, now)
  }

  ghost function KickAll(w: World, g: int, actor: int, ids: seq<int>, now: int): (v: World)
    requires g in w.rows
    ensures g in v.rows
  {
    if ids == [] then w else KickOne(KickAll(w, g, actor, ids[..|ids| - 1], now), g, actor, ids[|ids| - 1], now)
  }

  function PositionFor(setType: int): int {
    if setType == 1 then OFFICER else MEMBER
  }

  ghost function AppointOne(w: World, g: int, actor: int, position: int, p: int): World
    requires g in w.rows
  {
    if p == actor || p !in w.rows[g].members || p !in w.players then w else SetPosition(w, p, position)
  }

  ghost function AppointAll(w: World, g: int, actor: int, position: int, ids: seq<int>): (v: World)
    requires g in w.rows
    ensures g in v.rows
  {
    if ids == [] then w
    else AppointOne(AppointAll(w, g, actor, position, ids[..|ids| - 1]), g, actor, position, ids[|ids| - 1])
  }

  lemma {:induction false} AgreeAllKeeps(rules: Rules, w: World, g: int, refuse: bool, ids: seq<int>)
    requires Inv(rules, w) && Live(w, g) && w.rows[g].level in rules.levels
    requires refuse || |w.rows[g].members| + |ids| <= rules.levels[w.rows[g].level].memberNum
    ensures var v := AgreeAll(w, g, refuse, ids);
      && Inv(rules, v) && Live(v, g) && v.rows[g].level == w.rows[g].level
      && |v.rows[g].members| <= |w.rows[g].members| + if refuse then 0 else |ids|
    decreases |ids|
  {
    if ids != [] {
      var n := |ids| - 1;
      AgreeAllKeeps(rules, w, g, refuse, ids[..n]);
      var v, p := AgreeAll(w, g, refuse, ids[..n]), ids[n];
      hide Inv, AgreeAll;
      if refuse {
        RowKeeps(rules, v, g, v.rows[g].(asks := v.rows[g].asks - {p}));
      } else if !(p !in v.players || p !in v.rows[g].asks || p in v.rows[g].members || v.players[p].guildId > 0) {
        NoNegativeGuild(rules, v, p);
        JoinKeeps(rules, v, g, p);
      }
    }
  }

  lemma NoNegativeGuild(rules: Rules, w: World, p: int)
    requires Inv(rules, w) && p in w.players
    ensures w.players[p].guildId >= 0
  {
    assert PlayerOk(w, p);
    if w.players[p].guildId != 0 {
      assert GuildOk(rules, w, w.players[p].guildId);
    }
  }

  lemma {:induction false} KickAllKeeps(rules: Rules, w: World, g: int, actor: int, ids: seq<int>, now: int)
    requires Inv(rules, w) && Live(w, g)
    ensures var v := KickAll(w, g, actor, ids, now); Inv(rules, v) && Live(v, g)
    decreases |ids|
  {
    if ids != [] {
      var n := |ids| - 1;
      KickAllKeeps(rules, w, g, actor, ids[..n], now);
      var v, p := KickAll(w, g, actor, ids[..n], now), ids[n];
      if p in v.rows[g].members && p in v.players && v.players[p].position == MEMBER {
        assert GuildOk(rules, v, g);
        hide Inv;
        LeaveKeeps(rules, v, g, p, now);
      }
    }
  }

  lemma {:induction false} AppointAllKeeps(rules: Rules, w: World, g: int, actor: int, position: int, ids: seq<int>)
    requires Inv(rules, w) && Live(w, g) && w.rows[g].president == actor && position != PRESIDENT
    ensures var v := AppointAll(w, g, actor, position, ids);
      Inv(rules, v) && Live(v, g) && v.rows == w.rows
    decreases |ids|
  {
    if ids != [] {
      var n := |ids| - 1;
      AppointAllKeeps(rules, w, g, actor, position, ids[..n]);
      var v, p := AppointAll(w, g, actor, position, ids[..n]), ids[n];
      hide Inv;
      if p != actor && p in v.rows[g].members && p in v.players {
        AppointKeeps(rules, v, g, p, position);
      }
    }
  }

  // ---- levels

  datatype Growth = Growth(level: int, exp: nat)

  /** Uses up experience for as many levels as it pays for. */
  ghost function Grow(rules: Rules, level: int, exp: nat): Growth
    decreases exp
  {
    if level !in rules.levels || rules.levels[level].exp <= 0 || rules.levels[level].exp > exp then Growth(level, exp)
    else Grow(rules, level + 1, exp - rules.levels[level].exp)
  }

  lemma {:induction false} GrowKeeps(rules: Rules, level: int, exp: nat)
    requires GoodRules(rules) && level in rules.levels
    ensures var e := Grow(rules, level, exp).level;
      e in rules.levels && level <= e && rules.levels[level].memberNum <= rules.levels[e].memberNum
    decreases exp
  {
    if !(rules.levels[level].exp <= 0 || rules.levels[level].exp > exp) {
      GrowKeeps(rules, level + 1, exp - rules.levels[level].exp);
    }
  }

  ghost function Grown(rules: Rules, r: Row, exp: nat): Row {
    var e := Grow(rules, if r.level <= 0 then 1 else r.level, r.exp + exp);
    r.(level := e.level, exp := e.exp)
  }

  // ---- requests

  ghost predicate NameFree(w: World, name: string) {
    forall g | Live(w, g) :: w.rows[g].name != name
  }

  /** What a request of player `p` at time `now` leads to.  Refused requests may still make a guild lapse. */
  ghost function Step(rules: Rules, w: World, p: int, now: int, request: Request): World {
    match request
    case Create(name, newId) =>
      if p !in w.players || |name| > rules.nameLength || !NameFree(w, name) then w else
        var g := w.players[p].guildId;
        var v := if g > 0 then Lapse(rules, w, g, now) else w;
        if (g > 0 && Live(v, g)) || newId in v.rows then v else Founded(v, p, name, newId)
    case Look(g) => Lapse(rules, w, g, now)
    case AskJoin(g) =>
      if p !in w.players || Cooling(rules, w.players[p], now) || w.players[p].guildId > 0 then w else
        var v := Lapse(rules, w, g, now);
        if !Live(v, g) || p in v.rows[g].members then v
        else v.(rows := v.rows[g := v.rows[g].(asks := v.rows[g].asks + {p})])
    case Agree(ids, refuse) =>
      if ids == [] then w else
        var got := GetGuildOf(rules, w, p, false, now);
        var v := got.world;
        if got.guild.None? || (!refuse && !HasRoom(rules, v, got.guild.value, |ids|))
          || v.players[p].position <= MEMBER then v
        else AgreeAll(v, got.guild.value, refuse, ids)
    case Quit =>
      var got := GetGuildOf(rules, w, p, false, now);
      var v := got.world;
      if got.guild.None? || v.rows[got.guild.value].president == p then v
      else Leave(v, got.guild.value, p, now)
    case SetOfficer(ids, setType) =>
      var got := GetGuildOf(rules, w, p, true, now);
      var v := got.world;
      if got.guild.None? then v
      else AppointAll(v, got.guild.value, p, PositionFor(setType), ids)
    case Kick(ids) =>
      var got := GetGuildOf(rules, w, p, false, now);
      var v := got.world;
      if got.guild.None? || v.players[p].position <= MEMBER then v
      else KickAll(v, got.guild.value, p, ids, now)
    case ChangePresident(q) =>
      if q == p || q !in w.players then w else
        var got := GetGuildOf(rules, w, p, true, now);
        var v := got.world;
        if got.guild.None? || q !in v.rows[got.guild.value].members then v
        else HandedOver(v, got.guild.value, p, q)
    case Dismiss =>
      var got := GetGuildOf(rules, w, p, true, now);
      var v := got.world;
      if got.guild.None? || v.rows[got.guild.value].existType != Exists then v
      else SetDismissal(v, got.guild.value, WillDelete, now)
    case CancelDismiss =>
      var got := GetGuildOf(rules, w, p, true, now);
      var v := got.world;
      if got.guild.None? || v.rows[got.guild.value].existType != WillDelete then v
      else SetDismissal(v, got.guild.value, Exists, 0)
    case AddExp(exp) =>
      var got := GetGuildOf(rules, w, p, false, now);
      var v := got.world;
      if got.guild.None? then v
      else v.(rows := v.rows[got.guild.value := Grown(rules, v.rows[got.guild.value], exp)])
  }

  predicate Cooling(rules: Rules, a: Affiliation, now: int) {
    a.quitTime > 0 && now - a.quitTime < rules.quitCooldown
  }

  predicate HasRoom(rules: Rules, w: World, g: int, n: nat) {
    g in w.rows && w.rows[g].level in rules.levels
    && |w.rows[g].members| + n <= rules.levels[w.rows[g].level].memberNum
  }

  ghost function SetDismissal(w: World, g: int, existType: ExistType, time: int): World
    requires g in w.rows
  {
    w.(rows := w.rows[g := w.rows[g].(existType := existType, dismissTime := time)])
  }

  // ---- every run

  lemma CreateKeeps(rules: Rules, w: World, p: int, now: int, name: string, newId: int)
    requires GoodRules(rules) && Inv(rules, w) && 0 < newId
    ensures Inv(rules, Step(rules, w, p, now, Create(name, newId)))
  {
    if p in w.players && |name| <= rules.nameLength && NameFree(w, name) {
      var g := w.players[p].guildId;
      NoNegativeGuild(rules, w, p);
      assert PlayerOk(w, p);
      if g > 0 {
        LapseKeeps(rules, w, g, now);
        RemovedKeeps(rules, w, g);
        assert GuildOk(rules, w, g);
      }
      var v := Lapse(rules, w, g, now);
      if !(g > 0 && Live(v, g)) && newId !in v.rows {
        assert forall h | Live(v, h) :: Live(w, h) && v.rows[h].name == w.rows[h].name;
        FoundedKeeps(rules, v, p, name, newId);
      }
    }
  }

  lemma AskKeeps(rules: Rules, w: World, p: int, now: int, g: int)
    requires Inv(rules, w)
    ensures Inv(rules, Step(rules, w, p, now, AskJoin(g)))
  {
    LapseKeeps(rules, w, g, now);
    var v := Lapse(rules, w, g, now);
    if Live(v, g) {
      assert GuildOk(rules, v, g);
      RowKeeps(rules, v, g, v.rows[g].(asks := v.rows[g].asks + {p}));
    }
  }

  /** Requests of a guild's members, once the guild is found. */
  lemma MemberStepKeeps(rules: Rules, w: World, p: int, now: int, request: Request)
    requires GoodRules(rules) && Inv(rules, w)
    requires !request.Create? && !request.Look? && !request.AskJoin?
    ensures Inv(rules, Step(rules, w, p, now, request))
  {
    var asPresident := request.SetOfficer? || request.ChangePresident? || request.Dismiss? || request.CancelDismiss?;
    LookupKeeps(rules, w, p, asPresident, now);
    var got := GetGuildOf(rules, w, p, asPresident, now);
    if got.guild.Some? {
      var g := got.guild.value;
      assert GuildOk(rules, w, g);
      hide Inv, GetGuildOf, GoodRules;
      match request
      case Agree(ids, refuse) =>
        if refuse || HasRoom(rules, w, g, |ids|) {
          AgreeAllKeeps(rules, w, g, refuse, ids);
        }
      case Quit =>
        if w.rows[g].president != p {
          LeaveKeeps(rules, w, g, p, now);
        }
      case SetOfficer(ids, setType) => AppointAllKeeps(rules, w, g, p, PositionFor(setType), ids);
      case Kick(ids) => KickAllKeeps(rules, w, g, p, ids, now);
      case ChangePresident(q) =>
        if q != p && q in w.players && q in w.rows[g].members {
          HandOverKeeps(rules, w, g, p, q);
        }
      case Dismiss => RowKeeps(rules, w, g, w.rows[g].(existType := WillDelete, dismissTime := now));
      case CancelDismiss => RowKeeps(rules, w, g, w.rows[g].(existType := Exists, dismissTime := 0));
      case AddExp(exp) => AddExpKeeps(rules, w, g, exp);
    }
  }

  lemma AddExpKeeps(rules: Rules, w: World, g: int, exp: nat)
    requires GoodRules(rules) && Inv(rules, w) && Live(w, g)
    ensures Inv(rules, w.(rows := w.rows[g := Grown(rules, w.rows[g], exp)]))
  {
    assert GuildOk(rules, w, g);
    var r := w.rows[g];
    var level := if r.level <= 0 then 1 else r.level;
    GrowKeeps(rules, level, r.exp + exp);
    RowKeeps(rules, w, g, Grown(rules, r, exp));
  }

  lemma StepKeeps(rules: Rules, w: World, p: int, now: int, request: Request)
    requires GoodRules(rules) && Inv(rules, w) && (request.Create? ==> 0 < request.newId)
    ensures Inv(rules, Step(rules, w, p, now, request))
  {
    match request
    case Create(name, newId) => CreateKeeps(rules, w, p, now, name, newId);
    case Look(g) => LapseKeeps(rules, w, g, now);
    case AskJoin(g) => AskKeeps(rules, w, p, now, g);
    case _ => MemberStepKeeps(rules, w, p, now, request);
  }

  datatype Event = Event(playerId: int, now: int, request: Request)

  ghost function RunEvents(rules: Rules, w: World, events: seq<Event>): World
    decreases |events|
  {
    if events == [] then w
    else RunEvents(rules, Step(rules, w, events[0].playerId, events[0].now, events[0].request), events[1..])
  }

  /** The world stays orderly over every run, whatever players ask for and whatever the clock says. */
  lemma {:induction false} RunKeeps(rules: Rules, w: World, events: seq<Event>)
    requires GoodRules(rules) && Inv(rules, w)
    requires forall i | 0 <= i < |events| && events[i].request.Create? :: 0 < events[i].request.newId
    ensures Inv(rules, RunEvents(rules, w, events))
    decreases |events|
  {
    if events != [] {
      StepKeeps(rules, w, events[0].playerId, events[0].now, events[0].request);
      RunKeeps(rules, Step(rules, w, events[0].playerId, events[0].now, events[0].request), events[1..]);
    }
  }

  /** What an orderly world promises: membership seen from both sides, one president each, and no guild too large. */
  lemma OrderlyMeans(rules: Rules, w: World, g: int)
    requires Inv(rules, w) && g != 0
    ensures forall p | p in w.players :: w.players[p].guildId == g <==> Live(w, g) && p in w.rows[g].members
    ensures Live(w, g) ==>
      var r := w.rows[g];
      && (forall p | p in w.players :: w.players[p].guildId == g && w.players[p].position == PRESIDENT <==> p == r.president)
      && r.level in rules.levels && |r.members| <= rules.levels[r.level].memberNum
    ensures forall p | p in w.players && w.players[p].guildId == 0 :: w.players[p].position == MEMBER
  {
    if g in w.rows {
      assert GuildOk(rules, w, g);
    }
    forall p | p in w.players
      ensures w.players[p].guildId == g <==> Live(w, g) && p in w.rows[g].members
      ensures w.players[p].guildId == 0 ==> w.players[p].position == MEMBER
    {
      assert PlayerOk(w, p);
    }
  }
}
