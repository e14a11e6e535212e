/** The donation desk of the guilds: players' bags, open requests and scores, changed in place. */
module Donations {
  import opened DonationRules

  /** The donation columns of players and guilds.  Callers have found the guild of the acting player. */
  class DonationDesk {
    const rules: DonateRules
    var bags: map<BagKey, int>
    var asks: map<AskKey, Ask>
    var scores: map<int, int>
    var lastAsk: map<int, int>

    ghost function State(): Escrow
      reads this
    {
      Escrow(bags, asks, scores, lastAsk)
    }

    constructor (rules: DonateRules, bags: map<BagKey, int>)
      ensures this.rules == rules && State() == Escrow(bags, map[], map[], map[])
    {
      this.rules := rules;
      this.bags := bags;
      asks, scores, lastAsk := map[], map[], map[];
    }

    /** Adds items to a bag. */
    method AddResource(k: BagKey, n: int)
      requires 0 <= n
      modifies this`bags
      ensures bags == Given(old(bags), k, n)
    {
      if n > 0 {
        if k !in bags {
          bags := bags[k := if n > MAX_INT32 then MAX_INT32 else n];
        } else if bags[k] + n > MAX_INT32 {
          bags := bags[k := MAX_INT32];
        } else {
          bags := bags[k := bags[k] + n];
        }
      }
    }

    /** Takes items from a bag; refused if there are not as many, or none are asked for. */
    method DelItem(k: BagKey, count: int) returns (ok: bool)
      modifies this`bags
      ensures bags == TakenOut(old(bags), k, count) && ok == (1 <= count <= Count(old(bags), k))
    {
      if k !in bags {
        return false;
      }
      if count <= 0 || bags[k] < count {
        return false;
      }
      if bags[k] == count {
        bags := bags - {k};
      } else {
        bags := bags[k := bags[k] - count];
      }
      return true;
    }

    /** Closes the requests of a guild that timed out and gives back what they hold. */
    method CheckDonateList(g: int, ids: seq<int>, now: int) returns (changed: bool)
      requires forall k | k in asks :: 0 <= asks[k].itemNum
      modifies this`bags, this`asks
      ensures State() == CheckAll(rules, old(State()), g, ids, now) && changed == (asks != old(asks))
      ensures forall k | k in asks :: k in old(asks) && asks[k] == old(asks)[k]
      ensures forall k | k in old(asks) :: k !in asks <==>
        k.guild == g && k.player in ids && k.player in rules.players && rules.cooldown - (now - old(asks)[k].askTime) <= 1
    {
      ClosedExactly(rules, State(), g, ids, now);
      changed := false;
      var i := 0;
      while i < |ids|
        invariant 0 <= i <= |ids|
        invariant State() == CheckAll(rules, old(State()), g, ids[..i], now)
        invariant forall k | k in asks :: k in old(asks) && asks[k] == old(asks)[k]
        invariant changed == (asks != old(asks))
      {
        assert ids[..i + 1][..i] == ids[..i];
        var a := AskKey(g, ids[i]);
        if a in asks && TimedOut(rules, asks[a], now) && ids[i] in rules.players {
          AddResource(BagKey(a.player, asks[a].itemId), asks[a].itemNum);
          asks := asks - {a};
          changed := true;
        }
        i := i + 1;
      }
      assert ids[..i] == ids;
    }

    method CheckDonateRefresh(p: int, refresh: bool)
      modifies this`scores
      ensures State() == Refreshed(old(State()), p, refresh)
    {
      if refresh {
        scores := scores[p := 0];
      }
    }

    /** Opens a request; refused while the last one is recent or open.  `refresh` says that the score starts anew. */
    method AskDonate(p: int, item: int, g: int, ids: seq<int>, refresh: bool, now: int) returns (ok: bool)
      requires forall k | k in asks :: 0 <= asks[k].itemNum
      modifies this
      ensures State() == Perform(rules, old(State()), g, now, AskFor(p, item, ids, refresh))
      ensures ok <==>
        && item in rules.table && rules.cooldown - (now - Entry(old(lastAsk), p)) <= 1
        && AskKey(g, p) !in CheckAll(rules, old(State()), g, ids, now).asks
      ensures ok ==>
        && asks == CheckAll(rules, old(State()), g, ids, now).asks[AskKey(g, p) := Ask(item, 0, now)]
        && lastAsk == old(lastAsk)[p := now]
    {
      ClosedExactly(rules, State(), g, ids, now);
      if item !in rules.table {
        return false;
      }
      var _ := CheckDonateList(g, ids, now);
      CheckDonateRefresh(p, refresh);
      if RemainSeconds(Entry(lastAsk, p), rules.cooldown, now) > 1 {
        return false;
      }
      if AskKey(g, p) in asks {
        return false;
      }
      asks := asks[AskKey(g, p) := Ask(item, 0, now)];
      lastAsk := lastAsk[p := now];
      return true;
    }

    /** Gives one item to the request of another member, who gets all of them once they are complete. */
    method DonateTo(p: int, q: int, g: int, ids: seq<int>, refresh: bool, now: int) returns (ok: bool)
      requires GoodTable(rules) && forall k | k in asks :: 0 <= asks[k].itemNum
      modifies this
      ensures State() == Perform(rules, old(State()), g, now, Donate(p, q, ids, refresh))
      ensures ok == Granted(rules, old(State()), CheckAll(rules, old(State()), g, ids, now), g, p, q, refresh)
      ensures ok && Orderly(rules, old(State())) ==>
        var c := CheckAll(rules, old(State()), g, ids, now);
        GivesOne(c, State(), p, q, c.asks[AskKey(g, q)].itemId)
    {
      Promise(p, q, g, ids, refresh, now);
      hide Orderly, GivesOne, CheckAll, Completed, Handed, GoodTable;
      if p == q || q !in rules.players {
        return false;
      }
      var _ := CheckDonateList(g, ids, now);
      CheckDonateRefresh(p, refresh);
      ok := Contribute(p, AskKey(g, q));
    }

    /** What a granted donation does, and that timeouts leave the scores alone. */
    lemma Promise(p: int, q: int, g: int, ids: seq<int>, refresh: bool, now: int)
      requires GoodTable(rules)
      ensures var s := State();
        var c := CheckAll(rules, s, g, ids, now);
        && c.scores == s.scores
        && (Orderly(rules, s) && Granted(rules, s, c, g, p, q, refresh) ==>
             GivesOne(c, Perform(rules, s, g, now, Donate(p, q, ids, refresh)), p, q, c.asks[AskKey(g, q)].itemId))
    {
      ClosedExactly(rules, State(), g, ids, now);
      hide CheckAll, GivesOne, Granted, Perform, Orderly;
      if Orderly(rules, State()) {
        DonateMeans(rules, State(), g, now, p, q, ids, refresh);
      }
    }

    /** The donation once everything that timed out is closed. */
    method Contribute(p: int, a: AskKey) returns (ok: bool)
      requires GoodTable(rules)
      modifies this
      ensures ok == MayDonate(rules, old(State()), p, a)
      ensures !ok ==> State() == old(State())
      ensures ok ==> var s := old(State());
        State() == Completed(rules, Handed(rules, s, p, a), a).(
          scores := s.scores[p := Entry(s.scores, p) + rules.table[s.asks[a].itemId].limitScore])
    {
      if a !in asks {
        return false;
      }
      var itemId := asks[a].itemId;
      if itemId !in rules.table {
        return false;
      }
      var item, score := rules.table[itemId], Entry(scores, p);
      if score + item.limitScore > rules.limitDay {
        return false;
      }
      if Count(bags, BagKey(p, itemId)) < 1 {
        return false;
      }
      hide Completed, Handed;
      HandIn(p, a, item);
      scores := scores[p := score + item.limitScore];
      return true;
    }

    /** Moves the item, and pays out a complete request. */
    method HandIn(p: int, a: AskKey, item: DonateItem)
      requires a in asks && asks[a].itemId in rules.table && item == rules.table[asks[a].itemId] && 0 < item.requestNum
      modifies this`bags, this`asks
      ensures State() == Completed(rules, Handed(rules, old(State()), p, a), a)
    {
      var r := asks[a];
      var itemNum := r.itemNum;
      if itemNum < item.requestNum {
        var _ := DelItem(BagKey(p, r.itemId), 1);
        itemNum := itemNum + 1;
        asks := asks[a := r.(itemNum := itemNum)];
      }
      if itemNum >= item.requestNum {
        AddResource(BagKey(a.player, r.itemId), item.requestNum);
        asks := asks - {a};
      }
    }
  }
}
