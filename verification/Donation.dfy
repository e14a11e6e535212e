/**
 Donations between guild members: items given are held with the request until it is complete or
 times out.  Players' bags and open requests together hold a fixed number of every item.
 */
module DonationRules {
  import opened Sums

  const MAX_INT32 := 0x7fff_ffff

  // ---- bags and requests

  datatype BagKey = BagKey(player: int, item: int)

  datatype AskKey = AskKey(guild: int, player: int)

  /** A request: `itemNum` items have been given so far. */
  datatype Ask = Ask(itemId: int, itemNum: int, askTime: int)

  datatype Escrow = Escrow(bags: map<BagKey, int>, asks: map<AskKey, Ask>, scores: map<int, int>, lastAsk: map<int, int>)

  datatype DonateItem = DonateItem(requestNum: int, limitScore: int)

  /** `table` has the items that can be asked for, all of them ordinary ones; `players` are the ids that resolve. */
  datatype DonateRules = DonateRules(table: map<int, DonateItem>, players: set<int>, cooldown: int, limitDay: int)

  ghost predicate GoodTable(rules: DonateRules) {
    forall x | x in rules.table :: 0 < rules.table[x].requestNum <= MAX_INT32
  }

  function Count(bags: map<BagKey, int>, k: BagKey): int {
    if k in bags then bags[k] else 0
  }

  function Entry(m: map<int, int>, k: int): int {
    if k in m then m[k] else 0
  }

  function RemainSeconds(start: int, duration: int, now: int): int {
    if duration <= now - start then 0 else duration - (now - start)
  }

  /** A bag after items were added; counts stop at the largest 32-bit number, and adding none does nothing. */
  ghost function Given(bags: map<BagKey, int>, k: BagKey, n: int): map<BagKey, int> {
    if n <= 0 then bags
    else bags[k := if Count(bags, k) + n > MAX_INT32 then MAX_INT32 else Count(bags, k) + n]
  }

  /** A bag after `n` items were taken; nothing happens if there are not as many. */
  ghost function TakenOut(bags: map<BagKey, int>, k: BagKey, n: int): map<BagKey, int> {
    if n <= 0 || k !in bags || bags[k] < n then bags
    else if bags[k] == n then bags - {k}
    else bags[k := bags[k] - n]
  }

  ghost function InBags(bags: map<BagKey, int>, x: int): map<BagKey, int> {
    map k | k in bags && k.item == x :: bags[k]
  }

  ghost function InAsks(asks: map<AskKey, Ask>, x: int): map<AskKey, int> {
    map k | k in asks && asks[k].itemId == x :: asks[k].itemNum
  }

  /** All items of a kind, in bags and held with requests. */
  ghost function Total(s: Escrow, x: int): int {
    Sum(InBags(s.bags, x)) + Sum(InAsks(s.asks, x))
  }

  /** Bags hold positive 32-bit counts; every open request is for a known item and still short of its number. */
  ghost predicate Orderly(rules: DonateRules, s: Escrow) {
    && (forall k | k in s.bags :: 0 < s.bags[k] <= MAX_INT32)
    && (forall k | k in s.asks :: s.asks[k].itemId in rules.table
         && 0 <= s.asks[k].itemNum < rules.table[s.asks[k].itemId].requestNum)
  }

  lemma GivenSum(bags: map<BagKey, int>, k: BagKey, n: int, x: int)
    ensures Sum(InBags(Given(bags, k, n), x)) ==
      Sum(InBags(bags, x)) + if k.item == x then Count(Given(bags, k, n), k) - Count(bags, k) else 0
  {
    if n > 0 {
      var m := Given(bags, k, n);
      if k.item == x {
        SumSet(InBags(bags, x), k, m[k]);
        assert InBags(m, x) == InBags(bags, x)[k := m[k]];
      } else {
        assert InBags(m, x) == InBags(bags, x);
      }
    }
  }

  lemma TakenSum(bags: map<BagKey, int>, k: BagKey, n: int, x: int)
    requires 1 <= n <= Count(bags, k)
    ensures Sum(InBags(TakenOut(bags, k, n), x)) == Sum(InBags(bags, x)) - if k.item == x then n else 0
  {
    var m := TakenOut(bags, k, n);
    if k.item == x {
      if Count(bags, k) == n {
        SumWithout(InBags(bags, x), k);
        assert InBags(m, x) == InBags(bags, x) - {k};
      } else {
        SumSet(InBags(bags, x), k, m[k]);
        assert InBags(m, x) == InBags(bags, x)[k := m[k]];
      }
    } else {
      assert InBags(m, x) == InBags(bags, x);
    }
  }

  lemma AskSetSum(asks: map<AskKey, Ask>, k: AskKey, a: Ask, x: int)
    requires k in asks ==> asks[k].itemId == a.itemId
    ensures Sum(InAsks(asks[k := a], x)) ==
      Sum(InAsks(asks, x)) + if a.itemId == x then a.itemNum - (if k in asks then asks[k].itemNum else 0) else 0
  {
    var m := asks[k := a];
    if a.itemId == x {
      SumSet(InAsks(asks, x), k, a.itemNum);
      assert InAsks(m, x) == InAsks(asks, x)[k := a.itemNum];
    } else {
      assert InAsks(m, x) == InAsks(asks, x);
    }
  }

  lemma AskDropSum(asks: map<AskKey, Ask>, k: AskKey, x: int)
    requires k in asks
    ensures Sum(InAsks(asks - {k}, x)) == Sum(InAsks(asks, x)) - if asks[k].itemId == x then asks[k].itemNum else 0
  {
    if asks[k].itemId == x {
      SumWithout(InAsks(asks, x), k);
      assert InAsks(asks - {k}, x) == InAsks(asks, x) - {k};
    } else {
      assert InAsks(asks - {k}, x) == InAsks(asks, x);
    }
  }

  // ---- what the requests of players do

  /** Gives back what a request holds to the one who asked, and closes it. */
  ghost function Settled(s: Escrow, a: AskKey, n: int): Escrow
    requires a in s.asks
  {
    s.(bags := Given(s.bags, BagKey(a.player, s.asks[a].itemId), n), asks := s.asks - {a})
  }

  predicate TimedOut(rules: DonateRules, a: Ask, now: int) {
    RemainSeconds(a.askTime, rules.cooldown, now) <= 1
  }

  ghost function CheckOne(rules: DonateRules, s: Escrow, g: int, p: int, now: int): Escrow {
    var a := AskKey(g, p);
    if a in s.asks && TimedOut(rules, s.asks[a], now) && p in rules.players then Settled(s, a, s.asks[a].itemNum) else s
  }

  /** Closes the requests of a guild that timed out; `ids` is the order in which they are looked at. */
  ghost function CheckAll(rules: DonateRules, s: Escrow, g: int, ids: seq<int>, now: int): Escrow {
    if ids == [] then s
    else CheckOne(rules, CheckAll(rules, s, g, ids[..|ids| - 1], now), g, ids[|ids| - 1], now)
  }

  datatype Deed =
    | CheckList(ids: seq<int>)
    | AskFor(player: int, item: int, ids: seq<int>, refresh: bool)
    | Donate(player: int, target: int, ids: seq<int>, refresh: bool)

  /** One item moves from the donor's bag to the request, if it still needs one. */
  ghost function Handed(rules: DonateRules, s: Escrow, p: int, a: AskKey): Escrow
    requires a in s.asks && s.asks[a].itemId in rules.table
  {
    var r := s.asks[a];
    if r.itemNum < rules.table[r.itemId].requestNum
    then s.(bags := TakenOut(s.bags, BagKey(p, r.itemId), 1), asks := s.asks[a := r.(itemNum := r.itemNum + 1)])
    else s
  }

  /** A request that has all its items pays them out. */
  ghost function Completed(rules: DonateRules, s: Escrow, a: AskKey): Escrow
    requires a in s.asks && s.asks[a].itemId in rules.table
  {
    var n := rules.table[s.asks[a].itemId].requestNum;
    if s.asks[a].itemNum >= n then Settled(s, a, n) else s
  }

  ghost predicate MayDonate(rules: DonateRules, s: Escrow, p: int, a: AskKey) {
    && a in s.asks && s.asks[a].itemId in rules.table
    && Entry(s.scores, p) + rules.table[s.asks[a].itemId].limitScore <= rules.limitDay
    && 1 <= Count(s.bags, BagKey(p, s.asks[a].itemId))
  }

  ghost function Refreshed(s: Escrow, p: int, refresh: bool): Escrow {
    if refresh then s.(scores := s.scores[p := 0]) else s
  }

  ghost function Perform(rules: DonateRules, s: Escrow, g: int, now: int, deed: Deed): Escrow {
    match deed
    case CheckList(ids) => CheckAll(rules, s, g, ids, now)
    case AskFor(p, item, ids, refresh) =>
      if item !in rules.table then s else
        var v := Refreshed(CheckAll(rules, s, g, ids, now), p, refresh);
        if RemainSeconds(Entry(v.lastAsk, p), rules.cooldown, now) > 1 || AskKey(g, p) in v.asks then v
        else v.(asks := v.asks[AskKey(g, p) := Ask(item, 0, now)], lastAsk := v.lastAsk[p := now])
    case Donate(p, q, ids, refresh) =>
      if p == q || q !in rules.players then s else
        var v := Refreshed(CheckAll(rules, s, g, ids, now), p, refresh);
        var a := AskKey(g, q);
        if !MayDonate(rules, v, p, a) then v else
          var score := Entry(v.scores, p) + rules.table[v.asks[a].itemId].limitScore;
          Completed(rules, Handed(rules, v, p, a), a).(scores := v.scores[p := score])
  }

  /** `t` is orderly and has as many items as `s`, unless a bag was filled to the brim. */
  ghost predicate Conserves(rules: DonateRules, s: Escrow, t: Escrow) {
    && Orderly(rules, t)
    && forall x :: Total(t, x) <= Total(s, x) && (Total(s, x) <= MAX_INT32 ==> Total(t, x) == Total(s, x))
  }

  lemma SettledConserves(rules: DonateRules, s: Escrow, a: AskKey, n: int)
    requires Orderly(rules, s.(asks := s.asks - {a})) && a in s.asks && s.asks[a].itemNum == n >= 0
    requires n <= MAX_INT32
    ensures Conserves(rules, s, Settled(s, a, n))
  {
    var k := BagKey(a.player, s.asks[a].itemId);
    var t := Settled(s, a, n);
    forall x
      ensures Total(t, x) <= Total(s, x) && (Total(s, x) <= MAX_INT32 ==> Total(t, x) == Total(s, x))
    {
      GivenSum(s.bags, k, n, x);
      AskDropSum(s.asks, a, x);
      if k.item == x && n > 0 {
        assert Total(s, x) == Sum(InBags(s.bags, x)) + Sum(InAsks(s.asks - {a}, x)) + n;
        SumBounds(InAsks(s.asks - {a}, x));
        if k in s.bags {
          EntryBound(InBags(s.bags, x), k);
        } else {
          SumBounds(InBags(s.bags, x));
        }
      }
    }
  }

  lemma HandedConserves(rules: DonateRules, s: Escrow, p: int, a: AskKey)
    requires Orderly(rules, s) && GoodTable(rules) && a in s.asks && 1 <= Count(s.bags, BagKey(p, s.asks[a].itemId))
    ensures var t := Handed(rules, s, p, a);
      && (forall x :: Total(t, x) == Total(s, x))
      && t.asks == s.asks[a := s.asks[a].(itemNum := s.asks[a].itemNum + 1)]
      && Orderly(rules, t.(asks := t.asks - {a}))
  {
    var r := s.asks[a];
    var k := BagKey(p, r.itemId);
    var t := Handed(rules, s, p, a);
    forall x
      ensures Total(t, x) == Total(s, x)
    {
      TakenSum(s.bags, k, 1, x);
      AskSetSum(s.asks, a, r.(itemNum := r.itemNum + 1), x);
    }
  }

  lemma CheckOneConserves(rules: DonateRules, s: Escrow, g: int, p: int, now: int)
    requires Orderly(rules, s) && GoodTable(rules)
    ensures Conserves(rules, s, CheckOne(rules, s, g, p, now))
  {
    var a := AskKey(g, p);
    if a in s.asks {
      SettledConserves(rules, s, a, s.asks[a].itemNum);
    }
  }

  lemma {:induction false} CheckAllConserves(rules: DonateRules, s: Escrow, g: int, ids: seq<int>, now: int)
    requires Orderly(rules, s) && GoodTable(rules)
    ensures Conserves(rules, s, CheckAll(rules, s, g, ids, now))
    decreases |ids|
  {
    if ids != [] {
      var n := |ids| - 1;
      CheckAllConserves(rules, s, g, ids[..n], now);
      CheckOneConserves(rules, CheckAll(rules, s, g, ids[..n], now), g, ids[n], now);
    }
  }

  lemma DonateConserves(rules: DonateRules, r: Escrow, s: Escrow, p: int, a: AskKey)
    requires Conserves(rules, r, s) && GoodTable(rules) && MayDonate(rules, s, p, a)
    ensures Conserves(rules, r, Completed(rules, Handed(rules, s, p, a), a))
  {
    HandedConserves(rules, s, p, a);
    var t := Handed(rules, s, p, a);
    hide Total, Handed;
    var n := rules.table[s.asks[a].itemId].requestNum;
    if t.asks[a].itemNum >= n {
      SettledConserves(rules, t, a, n);
    } else {
      assert forall k | k in t.asks :: k != a ==> k in t.asks - {a};
      assert Orderly(rules, t);
    }
  }

  /** Scores and times hold no items. */
  lemma SameItems(rules: DonateRules, s: Escrow, t: Escrow, u: Escrow)
    requires Conserves(rules, s, t) && u.bags == t.bags && u.asks == t.asks
    ensures Conserves(rules, s, u)
  {
    forall x
      ensures Total(u, x) == Total(t, x)
    {
    }
  }

  lemma AskForConserves(rules: DonateRules, r: Escrow, s: Escrow, a: AskKey, item: int, now: int)
    requires Conserves(rules, r, s) && GoodTable(rules) && item in rules.table && a !in s.asks
    ensures Conserves(rules, r, s.(asks := s.asks[a := Ask(item, 0, now)]))
  {
    forall x
      ensures Total(s.(asks := s.asks[a := Ask(item, 0, now)]), x) == Total(s, x)
    {
      AskSetSum(s.asks, a, Ask(item, 0, now), x);
    }
  }

  /** No request, donation or timeout makes items, and none loses any while counts fit 32 bits. */
  lemma PerformConserves(rules: DonateRules, s: Escrow, g: int, now: int, deed: Deed)
    requires Orderly(rules, s) && GoodTable(rules)
    ensures Conserves(rules, s, Perform(rules, s, g, now, deed))
  {
    hide Conserves, Orderly, GoodTable, CheckAll, Completed, Handed, MayDonate;
    CheckAllConserves(rules, s, g, deed.ids, now);
    ConservesItself(rules, s);
    var c := CheckAll(rules, s, g, deed.ids, now);
    match deed
    case CheckList(ids) =>
    case AskFor(p, item, ids, refresh) =>
      var v, a := Refreshed(c, p, refresh), AskKey(g, p);
      SameItems(rules, s, c, v);
      if item in rules.table && a !in v.asks {
        AskForConserves(rules, s, v, a, item, now);
        var t := v.(asks := v.asks[a := Ask(item, 0, now)]);
        SameItems(rules, s, t, t.(lastAsk := v.lastAsk[p := now]));
      }
    case Donate(p, q, ids, refresh) =>
      var v, a := Refreshed(c, p, refresh), AskKey(g, q);
      SameItems(rules, s, c, v);
      if MayDonate(rules, v, p, a) {
        MayDonateKnows(rules, v, p, a);
        DonateConserves(rules, s, v, p, a);
        var t := Completed(rules, Handed(rules, v, p, a), a);
        var score := Entry(v.scores, p) + rules.table[v.asks[a].itemId].limitScore;
        SameItems(rules, s, t, t.(scores := v.scores[p := score]));
      }
  }

  lemma ConservesItself(rules: DonateRules, s: Escrow)
    requires Orderly(rules, s)
    ensures Conserves(rules, s, s)
  {
  }

  lemma MayDonateKnows(rules: DonateRules, s: Escrow, p: int, a: AskKey)
    requires MayDonate(rules, s, p, a)
    ensures a in s.asks && s.asks[a].itemId in rules.table
    ensures a in Handed(rules, s, p, a).asks && Handed(rules, s, p, a).asks[a].itemId == s.asks[a].itemId
  {
  }

  datatype DonateEvent = DonateEvent(guild: int, now: int, deed: Deed)

  ghost function RunDeeds(rules: DonateRules, s: Escrow, events: seq<DonateEvent>): Escrow {
    if events == [] then s else
      var n := |events| - 1;
      Perform(rules, RunDeeds(rules, s, events[..n]), events[n].guild, events[n].now, events[n].deed)
  }

  /** Over every run: the number of each item in bags and open requests together stays what it was. */
  lemma {:induction false} RunConserves(rules: DonateRules, s: Escrow, events: seq<DonateEvent>)
    requires Orderly(rules, s) && GoodTable(rules)
    ensures Conserves(rules, s, RunDeeds(rules, s, events))
    decreases |events|
  {
    if events != [] {
      var n := |events| - 1;
      RunConserves(rules, s, events[..n]);
      PerformConserves(rules, RunDeeds(rules, s, events[..n]), events[n].guild, events[n].now, events[n].deed);
    }
  }

  // ---- whose items they are

  /** What a player's own open requests hold of an item. */
  ghost function HeldFor(asks: map<AskKey, Ask>, p: int, x: int): map<AskKey, int> {
    map k | k in asks && k.player == p && asks[k].itemId == x :: asks[k].itemNum
  }

  /** What a player has of an item: in the bag, and held with requests of his or her own. */
  ghost function Side(s: Escrow, p: int, x: int): int {
    Count(s.bags, BagKey(p, x)) + Sum(HeldFor(s.asks, p, x))
  }

  /** Every player has in `t` what he or she had in `s`, unless a bag was filled to the brim. */
  ghost predicate KeepsSides(s: Escrow, t: Escrow) {
    forall p, x :: Side(t, p, x) <= Side(s, p, x) && (Side(s, p, x) <= MAX_INT32 ==> Side(t, p, x) == Side(s, p, x))
  }

  lemma HeldDrop(asks: map<AskKey, Ask>, k: AskKey, p: int, x: int)
    requires k in asks
    ensures Sum(HeldFor(asks - {k}, p, x)) ==
      Sum(HeldFor(asks, p, x)) - if k.player == p && asks[k].itemId == x then asks[k].itemNum else 0
  {
    if k.player == p && asks[k].itemId == x {
      SumWithout(HeldFor(asks, p, x), k);
      assert HeldFor(asks - {k}, p, x) == HeldFor(asks, p, x) - {k};
    } else {
      assert HeldFor(asks - {k}, p, x) == HeldFor(asks, p, x);
    }
  }

  lemma HeldMore(asks: map<AskKey, Ask>, k: AskKey, p: int, x: int)
    requires k in asks
    ensures var a := asks[k];
      Sum(HeldFor(asks[k := a.(itemNum := a.itemNum + 1)], p, x)) ==
        Sum(HeldFor(asks, p, x)) + if k.player == p && a.itemId == x then 1 else 0
  {
    var a := asks[k].(itemNum := asks[k].itemNum + 1);
    var m := asks[k := a];
    if k.player == p && a.itemId == x {
      SumSet(HeldFor(asks, p, x), k, a.itemNum);
      assert HeldFor(m, p, x) == HeldFor(asks, p, x)[k := a.itemNum];
    } else {
      assert HeldFor(m, p, x) == HeldFor(asks, p, x);
    }
  }

  lemma SettledSides(rules: DonateRules, s: Escrow, a: AskKey, n: int)
    requires Orderly(rules, s.(asks := s.asks - {a})) && a in s.asks && s.asks[a].itemNum == n >= 0
    ensures KeepsSides(s, Settled(s, a, n))
  {
    var t := Settled(s, a, n);
    forall p, x
      ensures Side(t, p, x) <= Side(s, p, x) && (Side(s, p, x) <= MAX_INT32 ==> Side(t, p, x) == Side(s, p, x))
    {
      HeldDrop(s.asks, a, p, x);
      SumBounds(HeldFor(s.asks - {a}, p, x));
    }
  }

  /** What times out goes back to the one who asked for it, whatever the order of the timeouts. */
  lemma {:induction false} CheckAllSides(rules: DonateRules, s: Escrow, g: int, ids: seq<int>, now: int)
    requires Orderly(rules, s) && GoodTable(rules)
    ensures KeepsSides(s, CheckAll(rules, s, g, ids, now))
    decreases |ids|
  {
    if ids != [] {
      var n := |ids| - 1;
      CheckAllSides(rules, s, g, ids[..n], now);
      CheckAllConserves(rules, s, g, ids[..n], now);
      var t, a := CheckAll(rules, s, g, ids[..n], now), AskKey(g, ids[n]);
      assert Orderly(rules, t);
      hide Side;
      if a in t.asks {
        SettledSides(rules, t, a, t.asks[a].itemNum);
      }
    }
  }

  /** A request is closed exactly if it is looked at, its player is known, and at most one second of its time is left. */
  lemma {:induction false} ClosedExactly(rules: DonateRules, s: Escrow, g: int, ids: seq<int>, now: int)
    ensures var t := CheckAll(rules, s, g, ids, now);
      && t.scores == s.scores && t.lastAsk == s.lastAsk
      && (forall k | k in t.asks :: k in s.asks && t.asks[k] == s.asks[k])
      && (forall k | k in s.asks :: k !in t.asks <==>
           k.guild == g && k.player in ids && k.player in rules.players && rules.cooldown - (now - s.asks[k].askTime) <= 1)
    decreases |ids|
  {
    if ids != [] {
      var n := |ids| - 1;
      ClosedExactly(rules, s, g, ids[..n], now);
      assert ids == ids[..n] + [ids[n]];
    }
  }

  lemma HandedSides(rules: DonateRules, s: Escrow, p: int, a: AskKey)
    requires Orderly(rules, s) && GoodTable(rules) && MayDonate(rules, s, p, a)
    ensures var r, t := s.asks[a], Handed(rules, s, p, a);
      && Orderly(rules, t.(asks := t.asks - {a})) && r.itemNum + 1 <= rules.table[r.itemId].requestNum <= MAX_INT32
      && 0 <= r.itemNum && t.asks == s.asks[a := r.(itemNum := r.itemNum + 1)]
      && Count(t.bags, BagKey(p, r.itemId)) == Count(s.bags, BagKey(p, r.itemId)) - 1
      && forall q, y :: Side(t, q, y) == Side(s, q, y)
           + (if y == r.itemId && q == a.player then 1 else 0) - (if y == r.itemId && q == p then 1 else 0)
  {
    var t := Handed(rules, s, p, a);
    HandedConserves(rules, s, p, a);
    forall q, y
      ensures Side(t, q, y) == Side(s, q, y)
        + (if y == s.asks[a].itemId && q == a.player then 1 else 0) - (if y == s.asks[a].itemId && q == p then 1 else 0)
    {
      HeldMore(s.asks, a, q, y);
      hide Sum, HeldFor;
    }
  }

  /** Paying out a request changes only what the one who asked has of the item. */
  lemma PaidSides(rules: DonateRules, s: Escrow, a: AskKey, n: int, p: int)
    requires Orderly(rules, s.(asks := s.asks - {a})) && a in s.asks && s.asks[a].itemNum == n >= 0 && p != a.player
    ensures KeepsSides(s, Settled(s, a, n))
    ensures Count(Settled(s, a, n).bags, BagKey(p, s.asks[a].itemId)) == Count(s.bags, BagKey(p, s.asks[a].itemId))
    ensures forall q, y | q != a.player || y != s.asks[a].itemId :: Side(Settled(s, a, n), q, y) == Side(s, q, y)
  {
    SettledSides(rules, s, a, n);
    forall q, y | q != a.player || y != s.asks[a].itemId
      ensures Side(Settled(s, a, n), q, y) == Side(s, q, y)
    {
      HeldDrop(s.asks, a, q, y);
      hide Sum, HeldFor;
    }
  }

  /** From `s` to `t`, player `p` has one item less and `q` one more, unless the bag is full; nobody else's items move. */
  ghost predicate GivesOne(s: Escrow, t: Escrow, p: int, q: int, x: int) {
    forall r, y :: SideMoved(s, t, p, q, x, r, y)
  }

  ghost predicate SideMoved(s: Escrow, t: Escrow, p: int, q: int, x: int, r: int, y: int) {
    var before, after := Side(s, r, y), Side(t, r, y);
    if y == x && r == p then after == before - 1
    else if y == x && r == q then after <= before + 1 && (before < MAX_INT32 ==> after == before + 1)
    else after == before
  }

  lemma DonatedSides(rules: DonateRules, s: Escrow, p: int, a: AskKey)
    requires Orderly(rules, s) && GoodTable(rules) && MayDonate(rules, s, p, a) && p != a.player
    ensures GivesOne(s, Completed(rules, Handed(rules, s, p, a), a), p, a.player, s.asks[a].itemId)
  {
    HandedSides(rules, s, p, a);
    var t, x, n := Handed(rules, s, p, a), s.asks[a].itemId, s.asks[a].itemNum + 1;
    if n >= rules.table[x].requestNum {
      PaidSides(rules, t, a, n, p);
    }
    var u := if n >= rules.table[x].requestNum then Settled(t, a, n) else t;
    assert Completed(rules, t, a) == u;
    hide Side, Handed, Completed, Settled, Orderly, GoodTable, MayDonate, Count;
    forall r, y
      ensures SideMoved(s, u, p, a.player, x, r, y)
    {
    }
  }

  /** The request that got one more stays open until it has all its items. */
  lemma DonatedAsks(rules: DonateRules, s: Escrow, p: int, a: AskKey)
    requires Orderly(rules, s) && a in s.asks
    ensures var r, t := s.asks[a], Completed(rules, Handed(rules, s, p, a), a);
      t.asks == if r.itemNum + 1 < rules.table[r.itemId].requestNum
                then s.asks[a := r.(itemNum := r.itemNum + 1)] else s.asks - {a}
  {
    var r := s.asks[a];
    assert s.asks[a := r.(itemNum := r.itemNum + 1)] - {a} == s.asks - {a};
  }

  /**
   Whether a donation is granted, once the timeouts led to `c`: the other player is known and has an open request for
   a known item, the score stays within the day's limit, and the donor has the item.
   */
  ghost predicate Granted(rules: DonateRules, s: Escrow, c: Escrow, g: int, p: int, q: int, refresh: bool) {
    var a := AskKey(g, q);
    && p != q && q in rules.players && a in c.asks && c.asks[a].itemId in rules.table
    && (if refresh then 0 else Entry(s.scores, p)) + rules.table[c.asks[a].itemId].limitScore <= rules.limitDay
    && 1 <= Count(c.bags, BagKey(p, c.asks[a].itemId))
  }

  /** Scores hold no items. */
  lemma SameGives(s: Escrow, s': Escrow, t: Escrow, t': Escrow, p: int, q: int, x: int)
    requires s'.bags == s.bags && s'.asks == s.asks && t'.bags == t.bags && t'.asks == t.asks
    requires GivesOne(s', t, p, q, x)
    ensures GivesOne(s, t', p, q, x)
  {
    forall r, y
      ensures SideMoved(s, t', p, q, x, r, y)
    {
      assert SideMoved(s', t, p, q, x, r, y);
    }
  }

  lemma SameSides(s: Escrow, t: Escrow, t': Escrow)
    requires KeepsSides(s, t) && t'.bags == t.bags && t'.asks == t.asks
    ensures KeepsSides(s, t')
  {
    assert forall q, y :: Side(t', q, y) == Side(t, q, y);
    hide Side;
  }

  lemma KeepsOwn(s: Escrow)
    ensures KeepsSides(s, s)
  {
  }

  /** A donation does what it should exactly if it is granted; a refused one moves no items but those of timeouts. */
  lemma DonateMeans(rules: DonateRules, s: Escrow, g: int, now: int, p: int, q: int, ids: seq<int>, refresh: bool)
    requires Orderly(rules, s) && GoodTable(rules)
    ensures var c, t := CheckAll(rules, s, g, ids, now), Perform(rules, s, g, now, Donate(p, q, ids, refresh));
      if Granted(rules, s, c, g, p, q, refresh) then
        var r := c.asks[AskKey(g, q)];
        && GivesOne(c, t, p, q, r.itemId)
        && t.asks == (if r.itemNum + 1 < rules.table[r.itemId].requestNum
                      then c.asks[AskKey(g, q) := r.(itemNum := r.itemNum + 1)] else c.asks - {AskKey(g, q)})
        && t.scores == s.scores[p := (if refresh then 0 else Entry(s.scores, p)) + rules.table[r.itemId].limitScore]
      else KeepsSides(s, t)
  {
    var c, a := CheckAll(rules, s, g, ids, now), AskKey(g, q);
    assert Orderly(rules, c) && c.scores == s.scores by {
      CheckAllConserves(rules, s, g, ids, now);
      ClosedExactly(rules, s, g, ids, now);
    }
    if Granted(rules, s, c, g, p, q, refresh) {
      GrantedMeans(rules, c, g, p, q, refresh, Perform(rules, s, g, now, Donate(p, q, ids, refresh)));
    } else {
      CheckAllSides(rules, s, g, ids, now);
      hide CheckAll;
      SameSides(s, c, Refreshed(c, p, refresh));
      KeepsOwn(s);
      hide KeepsSides;
    }
  }

  lemma GrantedMeans(rules: DonateRules, c: Escrow, g: int, p: int, q: int, refresh: bool, t: Escrow)
    requires Orderly(rules, c) && GoodTable(rules) && Granted(rules, c, c, g, p, q, refresh)
    requires var v, a := Refreshed(c, p, refresh), AskKey(g, q);
      t == Completed(rules, Handed(rules, v, p, a), a).(
        scores := v.scores[p := Entry(v.scores, p) + rules.table[v.asks[a].itemId].limitScore])
    ensures var r := c.asks[AskKey(g, q)];
      && GivesOne(c, t, p, q, r.itemId)
      && t.asks == (if r.itemNum + 1 < rules.table[r.itemId].requestNum
                    then c.asks[AskKey(g, q) := r.(itemNum := r.itemNum + 1)] else c.asks - {AskKey(g, q)})
      && t.scores == c.scores[p := (if refresh then 0 else Entry(c.scores, p)) + rules.table[r.itemId].limitScore]
  {
    var v, a := Refreshed(c, p, refresh), AskKey(g, q);
    assert Orderly(rules, v) && MayDonate(rules, v, p, a);
    hide Orderly, GoodTable, MayDonate, GivesOne, Completed, Handed;
    DonatedSides(rules, v, p, a);
    DonatedAsks(rules, v, p, a);
    SameGives(c, v, Completed(rules, Handed(rules, v, p, a), a), t, p, q, c.asks[a].itemId);
  }

  // ---- how much may be given in a day

  ghost predicate Limited(rules: DonateRules, s: Escrow) {
    forall p | p in s.scores :: s.scores[p] <= rules.limitDay
  }

  /** No run of requests brings a player's score over the day's limit. */
  lemma {:induction false} RunLimited(rules: DonateRules, s: Escrow, events: seq<DonateEvent>)
    requires 0 <= rules.limitDay && Limited(rules, s)
    ensures Limited(rules, RunDeeds(rules, s, events))
    decreases |events|
  {
    if events != [] {
      var n := |events| - 1;
      RunLimited(rules, s, events[..n]);
      ClosedExactly(rules, RunDeeds(rules, s, events[..n]), events[n].guild, events[n].deed.ids, events[n].now);
    }
  }
}
