/** What the guild requests promise: who may do what, and exactly what it changes. */
module GuildMeaning {
  import opened GuildRules
  import opened Options

  // ---- who may do what

  /** The guild's dismissal has taken effect. */
  ghost predicate Over(rules: Rules, w: World, g: int, now: int) {
    g in w.rows && w.rows[g].existType == WillDelete && rules.waiting <= now - w.rows[g].dismissTime
  }

  /** The guild the player's columns name; 0 is none. */
  ghost function Home(w: World, p: int): int {
    if p in w.players then w.players[p].guildId else 0
  }

  /** The player is in a guild that has not ended. */
  ghost predicate Acts(rules: Rules, w: World, p: int, now: int) {
    p in w.players && Live(w, Home(w, p)) && !Over(rules, w, Home(w, p), now)
  }

  ghost predicate Leads(rules: Rules, w: World, p: int, now: int) {
    Acts(rules, w, p, now) && w.rows[Home(w, p)].president == p
  }

  /** The president and officers. */
  ghost predicate Manages(rules: Rules, w: World, p: int, now: int) {
    Acts(rules, w, p, now) && w.players[p].position > MEMBER
  }

  /** How many members a guild of the level may have; -1 for a level the table does not know. */
  ghost function Places(rules: Rules, level: int): int {
    if level in rules.levels then rules.levels[level].memberNum else -1
  }

  ghost predicate Granted(rules: Rules, w: World, p: int, now: int, request: Request) {
    match request
    case Create(name, newId) =>
      && p in w.players && |name| <= rules.nameLength && (forall g | Live(w, g) :: w.rows[g].name != name)
      && !Acts(rules, w, p, now) && newId !in w.rows
    case Look(g) => Live(w, g) && !Over(rules, w, g, now)
    case AskJoin(g) =>
      && p in w.players && Home(w, p) == 0 && Live(w, g) && !Over(rules, w, g, now)
      && (w.players[p].quitTime > 0 ==> rules.quitCooldown <= now - w.players[p].quitTime)
    case Agree(ids, refuse) =>
      && ids != [] && Manages(rules, w, p, now)
      && (refuse || Places(rules, w.rows[Home(w, p)].level) >= |w.rows[Home(w, p)].members| + |ids|)
    case Quit => Acts(rules, w, p, now) && w.rows[Home(w, p)].president != p
    case SetOfficer(ids, setType) => Leads(rules, w, p, now)
    case Kick(ids) => Manages(rules, w, p, now)
    case ChangePresident(q) => Leads(rules, w, p, now) && q != p && q in w.rows[Home(w, p)].members
    case Dismiss => Leads(rules, w, p, now) && w.rows[Home(w, p)].existType == Exists
    case CancelDismiss => Leads(rules, w, p, now) && w.rows[Home(w, p)].existType == WillDelete
    case AddExp(exp) => Acts(rules, w, p, now)
  }

  // ---- what a granted request changes

  /** From `w` to `v` a guild ended: its row is deleted and its members are free; nothing else changed. */
  ghost predicate Ended(w: World, v: World, g: int) {
    && g in w.rows
    && v.rows == w.rows[g := w.rows[g].(existType := Deleted, members := {}, asks := {})]
    && v.players.Keys == w.players.Keys
    && forall q | q in w.players ::
         v.players[q] == if q in w.rows[g].members then Affiliation(0, MEMBER, 0) else w.players[q]
  }

  /** The guild ended if its time was over; nothing else changed. */
  ghost predicate Checked(rules: Rules, w: World, v: World, g: int, now: int) {
    if Over(rules, w, g, now) then Ended(w, v, g) else v == w
  }

  /** Of the players named, those who asked and have no guild. */
  ghost function Welcome(w: World, g: int, ids: seq<int>): set<int>
    requires g in w.rows
  {
    set q | q in ids && q in w.players && q in w.rows[g].asks && w.players[q].guildId == 0
  }

  /** Of the players named, the ordinary members. */
  ghost function Ordinary(w: World, g: int, ids: seq<int>): set<int>
    requires g in w.rows
  {
    set q | q in ids && q in w.players && q in w.rows[g].members && w.players[q].position == MEMBER
  }

  /** The experience that leads from one level to another. */
  ghost function Cost(rules: Rules, level: int, to: int): int
    decreases to - level
  {
    if to <= level then 0
    else (if level in rules.levels then rules.levels[level].exp else 0) + Cost(rules, level + 1, to)
  }

  /** `total` experience at level `l` pays for the levels up to `e` and leaves `x`, which does not pay for one more. */
  ghost predicate PaysFor(rules: Rules, l: int, total: nat, e: int, x: nat) {
    && l <= e && Cost(rules, l, e) + x == total
    && (forall k | l <= k < e :: k in rules.levels && 0 < rules.levels[k].exp)
    && (e in rules.levels && 0 < rules.levels[e].exp ==> x < rules.levels[e].exp)
  }

  /** `w` with the row of guild `g` replaced. */
  ghost function WithRow(w: World, g: int, r: Row): World {
    w.(rows := w.rows[g := r])
  }

  /** What a granted request leads from `w` to. */
  ghost predicate Effect(rules: Rules, w: World, p: int, now: int, request: Request, v: World)
    requires Granted(rules, w, p, now, request)
  {
    var g := Home(w, p);
    match request
    case Create(name, newId) =>
      exists u | Checked(rules, w, u, g, now) ::
        p in u.players
        && v == World(u.rows[newId := Row(name, 1, 0, p, Exists, 0, {p}, {})],
                      u.players[p := u.players[p].(guildId := newId, position := PRESIDENT)])
    case Look(_) => v == w
    case AskJoin(h) => v == WithRow(w, h, w.rows[h].(asks := w.rows[h].asks + {p}))
    case Agree(ids, refuse) =>
      var r := w.rows[g];
      if refuse then v == WithRow(w, g, r.(asks := r.asks - set q | q in ids)) else
        var welcome := Welcome(w, g, ids);
        && v.rows == w.rows[g := r.(members := r.members + welcome, asks := r.asks - welcome)]
        && v.players.Keys == w.players.Keys
        && forall q | q in w.players ::
             v.players[q] == if q in welcome then w.players[q].(guildId := g) else w.players[q]
    case Quit =>
      && v.rows == w.rows[g := w.rows[g].(members := w.rows[g].members - {p})]
      && v.players == w.players[p := Affiliation(0, MEMBER, now)]
    case SetOfficer(ids, setType) =>
      && v.rows == w.rows && v.players.Keys == w.players.Keys
      && forall q | q in w.players ::
           v.players[q] == if q in ids && q in w.rows[g].members && q != p
             then w.players[q].(position := if setType == 1 then OFFICER else MEMBER) else w.players[q]
    case Kick(ids) =>
      var ordinary := Ordinary(w, g, ids);
      && v.rows == w.rows[g := w.rows[g].(members := w.rows[g].members - ordinary)]
      && v.players.Keys == w.players.Keys
      && forall q | q in w.players ::
           v.players[q] == if q in ordinary then Affiliation(0, MEMBER, now) else w.players[q]
    case ChangePresident(q) =>
      && q in w.players && v.rows == w.rows[g := w.rows[g].(president := q)]
      && v.players == w.players[p := w.players[p].(position := MEMBER)][q := w.players[q].(position := PRESIDENT)]
    case Dismiss => v == WithRow(w, g, w.rows[g].(existType := WillDelete, dismissTime := now))
    case CancelDismiss => v == WithRow(w, g, w.rows[g].(existType := Exists, dismissTime := 0))
    case AddExp(exp) =>
      && g in v.rows && v == WithRow(w, g, w.rows[g].(level := v.rows[g].level, exp := v.rows[g].exp))
      && PaysFor(rules, w.rows[g].level, w.rows[g].exp + exp, v.rows[g].level, v.rows[g].exp)
  }

  /** A refused request changes nothing, except that the guild it looked at may turn out to have ended. */
  ghost predicate Refused(rules: Rules, w: World, p: int, now: int, request: Request, v: World) {
    var g := if request.Look? || request.AskJoin? then request.guildId else Home(w, p);
    v == w || (Over(rules, w, g, now) && Ended(w, v, g))
  }

  /** The whole promise: what the answer to a request is, and what the request leads to. */
  ghost predicate Answered(rules: Rules, w: World, p: int, now: int, request: Request, ok: bool, v: World) {
    && ok == Granted(rules, w, p, now, request)
    && if ok then Effect(rules, w, p, now, request, v) else Refused(rules, w, p, now, request, v)
  }

  // ---- the steps keep the promise

  lemma LapseMeans(rules: Rules, w: World, g: int, now: int)
    ensures Checked(rules, w, Lapse(rules, w, g, now), g, now)
    ensures Live(Lapse(rules, w, g, now), g) <==> Live(w, g) && !Over(rules, w, g, now)
    ensures Lapse(rules, w, g, now).rows.Keys == w.rows.Keys
  {
  }

  lemma MembersKnown(rules: Rules, w: World, p: int)
    requires Inv(rules, w)
    ensures 0 <= Home(w, p) && !Live(w, 0)
    ensures forall g, q | Live(w, g) && q in w.rows[g].members :: q in w.players && Home(w, q) == g
  {
    assert 0 in w.rows ==> GuildOk(rules, w, 0);
    if p in w.players {
      NoNegativeGuild(rules, w, p);
    }
    forall g, q | Live(w, g) && q in w.rows[g].members
      ensures q in w.players && Home(w, q) == g
    {
      assert GuildOk(rules, w, g);
    }
  }

  /** A lookup finds the player's guild exactly if it has not ended. */
  lemma FoundExactly(rules: Rules, w: World, p: int, asPresident: bool, now: int)
    requires Inv(rules, w)
    ensures var got := GetGuildOf(rules, w, p, asPresident, now);
      && (got.guild.Some? <==> if asPresident then Leads(rules, w, p, now) else Acts(rules, w, p, now))
      && (got.guild.Some? ==> got.world == w && got.guild.value == Home(w, p))
      && (got.guild.None? ==> got.world == w || (Over(rules, w, Home(w, p), now) && Ended(w, got.world, Home(w, p))))
  {
    LookupKeeps(rules, w, p, asPresident, now);
    if p in w.players {
      NoNegativeGuild(rules, w, p);
      assert PlayerOk(w, p);
      assert !Live(w, 0) by {
        assert 0 in w.rows ==> GuildOk(rules, w, 0);
      }
      LapseMeans(rules, w, Home(w, p), now);
    }
  }

  lemma {:induction false} RefuseAll(w: World, g: int, ids: seq<int>)
    requires g in w.rows
    ensures AgreeAll(w, g, true, ids) == WithRow(w, g, w.rows[g].(asks := w.rows[g].asks - set q | q in ids))
    decreases |ids|
  {
    var r := w.rows[g];
    if ids == [] {
      assert r.asks - (set q | q in ids) == r.asks;
      assert w.rows[g := r] == w.rows;
    } else {
      var n := |ids| - 1;
      RefuseAll(w, g, ids[..n]);
      assert ids == ids[..n] + [ids[n]];
      assert r.asks - (set q | q in ids) == r.asks - (set q | q in ids[..n]) - {ids[n]};
    }
  }

  /** Players who belong to guild `g` alone. */
  ghost predicate Settled(w: World, g: int) {
    0 < g && g in w.rows
    && forall q | q in w.players :: 0 <= w.players[q].guildId && (q in w.rows[g].members ==> w.players[q].guildId == g)
  }

  lemma InvSettled(rules: Rules, w: World, g: int)
    requires Inv(rules, w) && g in w.rows
    ensures Settled(w, g)
  {
    assert GuildOk(rules, w, g);
    forall q | q in w.players
      ensures 0 <= w.players[q].guildId
    {
      NoNegativeGuild(rules, w, q);
    }
  }

  lemma {:induction false} WelcomeAll(w: World, g: int, ids: seq<int>)
    requires Settled(w, g)
    ensures var v, r, welcome := AgreeAll(w, g, false, ids), w.rows[g], Welcome(w, g, ids);
      && v.rows == w.rows[g := r.(members := r.members + welcome, asks := r.asks - welcome)]
      && v.players.Keys == w.players.Keys
      && forall q | q in w.players ::
           v.players[q] == if q in welcome then w.players[q].(guildId := g) else w.players[q]
    decreases |ids|
  {
    var r := w.rows[g];
    if ids == [] {
      assert r.members + Welcome(w, g, ids) == r.members && r.asks - Welcome(w, g, ids) == r.asks;
    } else {
      var n := |ids| - 1;
      var p, before := ids[n], Welcome(w, g, ids[..n]);
      WelcomeAll(w, g, ids[..n]);
      assert ids == ids[..n] + [p];
      if p in w.players && p in r.asks && w.players[p].guildId == 0 {
        assert Welcome(w, g, ids) == before + {p};
        assert r.members + before + {p} == r.members + (before + {p});
        assert r.asks - before - {p} == r.asks - (before + {p});
        if p in before {
          assert before + {p} == before;
        }
      } else {
        assert Welcome(w, g, ids) == before;
      }
    }
  }

  lemma {:induction false} KickOrdinary(w: World, g: int, actor: int, ids: seq<int>, now: int)
    requires g in w.rows && (actor in w.players ==> w.players[actor].position != MEMBER)
    ensures var v, ordinary := KickAll(w, g, actor, ids, now), Ordinary(w, g, ids);
      && v.rows == w.rows[g := w.rows[g].(members := w.rows[g].members - ordinary)]
      && v.players.Keys == w.players.Keys
      && forall q | q in w.players ::
           v.players[q] == if q in ordinary then Affiliation(0, MEMBER, now) else w.players[q]
    decreases |ids|
  {
    var r := w.rows[g];
    if ids == [] {
      assert r.members - Ordinary(w, g, ids) == r.members;
    } else {
      var n := |ids| - 1;
      var p, before := ids[n], Ordinary(w, g, ids[..n]);
      KickOrdinary(w, g, actor, ids[..n], now);
      assert ids == ids[..n] + [p];
      if p in w.players && p in r.members && w.players[p].position == MEMBER {
        assert Ordinary(w, g, ids) == before + {p};
        assert r.members - before - {p} == r.members - (before + {p});
        if p in before {
          assert before + {p} == before;
        }
      } else {
        assert Ordinary(w, g, ids) == before;
      }
    }
  }

  lemma {:induction false} AppointNamed(w: World, g: int, actor: int, position: int, ids: seq<int>)
    requires g in w.rows
    ensures var v := AppointAll(w, g, actor, position, ids);
      && v.rows == w.rows && v.players.Keys == w.players.Keys
      && forall q | q in w.players ::
           v.players[q] == if q in ids && q in w.rows[g].members && q != actor
             then w.players[q].(position := position) else w.players[q]
    decreases |ids|
  {
    if ids != [] {
      var n := |ids| - 1;
      AppointNamed(w, g, actor, position, ids[..n]);
      assert ids == ids[..n] + [ids[n]];
    }
  }

  lemma {:induction false} GrowPays(rules: Rules, level: int, exp: nat)
    ensures var r := Grow(rules, level, exp); PaysFor(rules, level, exp, r.level, r.exp)
    decreases exp
  {
    if level in rules.levels && 0 < rules.levels[level].exp <= exp {
      GrowPays(rules, level + 1, exp - rules.levels[level].exp);
    }
  }

  lemma CreateMeans(rules: Rules, w: World, p: int, now: int, name: string, newId: int)
    requires Inv(rules, w)
    ensures var v, request := Step(rules, w, p, now, Create(name, newId)), Create(name, newId);
      if Granted(rules, w, p, now, request) then Effect(rules, w, p, now, request, v)
      else Refused(rules, w, p, now, request, v)
  {
    FoundExactly(rules, w, p, false, now);
    LapseMeans(rules, w, Home(w, p), now);
    if p in w.players {
      NoNegativeGuild(rules, w, p);
      assert !Live(w, 0) by {
        assert 0 in w.rows ==> GuildOk(rules, w, 0);
      }
      hide Inv;
      var u := Lapse(rules, w, Home(w, p), now);
      assert Checked(rules, w, u, Home(w, p), now);
      assert newId in u.rows <==> newId in w.rows;
    }
  }

  lemma AskMeans(rules: Rules, w: World, p: int, now: int, g: int)
    requires Inv(rules, w)
    ensures var v, request := Step(rules, w, p, now, AskJoin(g)), AskJoin(g);
      if Granted(rules, w, p, now, request) then Effect(rules, w, p, now, request, v)
      else Refused(rules, w, p, now, request, v)
  {
    LapseMeans(rules, w, g, now);
    if p in w.players {
      NoNegativeGuild(rules, w, p);
      assert g in w.rows && p in w.rows[g].members ==> GuildOk(rules, w, g);
    }
  }

  /** Every request does what it promises, whether it is granted or refused. */
  lemma StepMeans(rules: Rules, w: World, p: int, now: int, request: Request)
    requires Inv(rules, w)
    ensures var v := Step(rules, w, p, now, request);
      if Granted(rules, w, p, now, request) then Effect(rules, w, p, now, request, v)
      else Refused(rules, w, p, now, request, v)
  {
    match request
    case Create(name, newId) => CreateMeans(rules, w, p, now, name, newId);
    case Look(g) => LapseMeans(rules, w, g, now);
    case AskJoin(g) => AskMeans(rules, w, p, now, g);
    case _ => MemberMeans(rules, w, p, now, request);
  }

  lemma AgreeMeans(rules: Rules, w: World, p: int, now: int, ids: seq<int>, refuse: bool)
    requires Settled(w, Home(w, p)) && Acts(rules, w, p, now)
    requires GetGuildOf(rules, w, p, false, now) == Got(w, Some(Home(w, p)))
    ensures var v, request := Step(rules, w, p, now, Agree(ids, refuse)), Agree(ids, refuse);
      if Granted(rules, w, p, now, request) then Effect(rules, w, p, now, request, v) else v == w
  {
    RefuseAll(w, Home(w, p), ids);
    WelcomeAll(w, Home(w, p), ids);
    hide GetGuildOf, Settled, Welcome, AgreeAll;
  }

  lemma MemberMeans(rules: Rules, w: World, p: int, now: int, request: Request)
    requires Inv(rules, w)
    requires !request.Create? && !request.Look? && !request.AskJoin?
    ensures var v := Step(rules, w, p, now, request);
      if Granted(rules, w, p, now, request) then Effect(rules, w, p, now, request, v)
      else Refused(rules, w, p, now, request, v)
  {
    var asPresident := request.SetOfficer? || request.ChangePresident? || request.Dismiss? || request.CancelDismiss?;
    FoundExactly(rules, w, p, asPresident, now);
    if Acts(rules, w, p, now) {
      var g := Home(w, p);
      assert GuildOk(rules, w, g) && PlayerOk(w, p);
      InvSettled(rules, w, g);
      hide Inv, GetGuildOf, Settled, Lapse, PlayerOk, GuildOk, Grow, Cost;
      match request
      case Agree(ids, refuse) => AgreeMeans(rules, w, p, now, ids, refuse);
      case SetOfficer(ids, setType) => AppointNamed(w, g, p, PositionFor(setType), ids);
      case Kick(ids) =>
        if w.players[p].position > MEMBER {
          KickOrdinary(w, g, p, ids, now);
        }
      case AddExp(exp) => GrowPays(rules, w.rows[g].level, w.rows[g].exp + exp);
      case _ =>
    }
  }

  // ---- what requests mean for each other

  /**
   Consent admits exactly the players named who asked and have no guild, and exactly they stop asking, if there is room
   for as many as are named; otherwise nothing changes.
   */
  lemma AdmittedExactly(rules: Rules, w: World, p: int, now: int, ids: seq<int>, q: int)
    requires Inv(rules, w) && Acts(rules, w, p, now) && w.players[p].position > MEMBER && ids != []
    ensures var g, v := w.players[p].guildId, Step(rules, w, p, now, Agree(ids, false));
      var r, level := w.rows[g], w.rows[g].level;
      var room := level in rules.levels && |r.members| + |ids| <= rules.levels[level].memberNum;
      var admitted := room && q in ids && q in w.players && q in r.asks && w.players[q].guildId == 0;
      && g in v.rows && v.players.Keys == w.players.Keys
      && (q in v.rows[g].members <==> q in r.members || admitted)
      && (q in v.rows[g].asks <==> q in r.asks && !admitted)
      && (q in w.players ==> v.players[q] == if admitted then w.players[q].(guildId := g) else w.players[q])
      && (forall h | h != g :: (h in v.rows <==> h in w.rows) && (h in w.rows ==> v.rows[h] == w.rows[h]))
  {
    StepMeans(rules, w, p, now, Agree(ids, false));
    assert GuildOk(rules, w, w.players[p].guildId);
    hide Inv, Step;
  }

  /** Refusing players takes exactly those named off the list of who asked, and changes nothing else. */
  lemma RefusedExactly(rules: Rules, w: World, p: int, now: int, ids: seq<int>, q: int)
    requires Inv(rules, w) && Acts(rules, w, p, now) && w.players[p].position > MEMBER && ids != []
    ensures var g, v := w.players[p].guildId, Step(rules, w, p, now, Agree(ids, true));
      && g in v.rows && v.players == w.players && v.rows[g].members == w.rows[g].members
      && (q in v.rows[g].asks <==> q in w.rows[g].asks && q !in ids)
      && (forall h | h != g :: (h in v.rows <==> h in w.rows) && (h in w.rows ==> v.rows[h] == w.rows[h]))
  {
    StepMeans(rules, w, p, now, Agree(ids, true));
    hide Inv, Step;
  }

  /** The president and officers expel exactly the ordinary members named, who are then free from that moment. */
  lemma ExpelledExactly(rules: Rules, w: World, p: int, now: int, ids: seq<int>, q: int)
    requires Inv(rules, w) && Acts(rules, w, p, now) && w.players[p].position > MEMBER
    ensures var g, v := w.players[p].guildId, Step(rules, w, p, now, Kick(ids));
      var expelled := q in ids && q in w.rows[g].members && q in w.players && w.players[q].position == MEMBER;
      && g in v.rows && v.players.Keys == w.players.Keys
      && (q in v.rows[g].members <==> q in w.rows[g].members && !expelled)
      && (q in w.players ==> v.players[q] == if expelled then Affiliation(0, MEMBER, now) else w.players[q])
      && (forall h | h != g :: (h in v.rows <==> h in w.rows) && (h in w.rows ==> v.rows[h] == w.rows[h]))
  {
    StepMeans(rules, w, p, now, Kick(ids));
    hide Inv, Step;
  }

  /** Who quits may ask another guild exactly when the cooldown is over. */
  lemma CooldownHolds(rules: Rules, w: World, p: int, t: int, u: int, g: int)
    requires Inv(rules, w) && Acts(rules, w, p, t) && w.rows[Home(w, p)].president != p && 0 < t
    requires g in w.rows && w.rows[g].existType == Exists && g != Home(w, p) && p !in w.rows[g].asks
    ensures var v := Step(rules, Step(rules, w, p, t, Quit), p, u, AskJoin(g));
      g in v.rows && (p in v.rows[g].asks <==> rules.quitCooldown <= u - t)
  {
    FoundExactly(rules, w, p, false, t);
    assert GuildOk(rules, w, g) && PlayerOk(w, p);
    hide Inv, GetGuildOf;
    var v := Step(rules, w, p, t, Quit);
    assert v.players[p] == Affiliation(0, MEMBER, t) && v.rows[g] == w.rows[g];
    hide Leave;
  }

  /** A dismissed guild lives on exactly as long as its waiting time. */
  lemma DismissalHolds(rules: Rules, w: World, p: int, t: int, q: int, u: int)
    requires Inv(rules, w) && Leads(rules, w, p, t) && w.rows[Home(w, p)].existType == Exists
    ensures Live(Step(rules, Step(rules, w, p, t, Dismiss), q, u, Look(Home(w, p))), Home(w, p)) <==>
      u - t < rules.waiting
  {
    FoundExactly(rules, w, p, true, t);
    hide Inv, GetGuildOf;
    var v := Step(rules, w, p, t, Dismiss);
    assert v.rows[Home(w, p)] == w.rows[Home(w, p)].(existType := WillDelete, dismissTime := t);
    LapseMeans(rules, v, Home(w, p), u);
  }

  /** A dismissal that is taken back in time has no effect. */
  lemma DismissalUndone(rules: Rules, w: World, p: int, t: int, u: int)
    requires Inv(rules, w) && Leads(rules, w, p, t) && w.rows[Home(w, p)].existType == Exists && u - t < rules.waiting
    ensures var r := w.rows[Home(w, p)];
      Step(rules, Step(rules, w, p, t, Dismiss), p, u, CancelDismiss) == WithRow(w, Home(w, p), r.(dismissTime := 0))
  {
    var v := Step(rules, w, p, t, Dismiss);
    StepMeans(rules, w, p, t, Dismiss);
    assert Inv(rules, v) by {
      assert GuildOk(rules, w, Home(w, p));
      RowKeeps(rules, w, Home(w, p), w.rows[Home(w, p)].(existType := WillDelete, dismissTime := t));
    }
    StepMeans(rules, v, p, u, CancelDismiss);
    hide Inv, Step;
  }

  /** A member the president makes an officer may expel ordinary members, and one who is made ordinary again may not. */
  lemma OfficersManage(rules: Rules, w: World, p: int, now: int, q: int, setType: int, ids: seq<int>)
    requires Inv(rules, w) && Leads(rules, w, p, now) && q in w.rows[Home(w, p)].members && q != p
    ensures Granted(rules, Step(rules, w, p, now, SetOfficer([q], setType)), q, now, Kick(ids)) <==> setType == 1
  {
    StepMeans(rules, w, p, now, SetOfficer([q], setType));
    assert GuildOk(rules, w, Home(w, p));
    hide Inv, Step;
  }
}
