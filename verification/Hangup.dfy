/** Income while a campaign is left running: it is counted when somebody looks, into a cache or into the bag. */
module Hangups {

  const OFFLINE_SECS := 28800

  /** A period must not be zero: the source divides by it. */
  type period = secs: int | 0 < secs witness 1

  datatype Reward = Reward(item: int, num: nat)

  /** What a campaign pays every `secs` seconds. */
  datatype Campaign = Campaign(secs: period, rewards: seq<Reward>)

  /** When income was counted up to, what is cached, and what is in the bag. */
  datatype Income = Income(countedTo: int, cache: map<int, int>, bag: map<int, int>)

  function Count(m: map<int, int>, x: int): int {
    if x in m then m[x] else 0
  }

  /** What one round of rewards holds of an item. */
  ghost function PerRound(rewards: seq<Reward>, x: int): nat {
    if rewards == [] then 0 else
      var n := |rewards| - 1;
      PerRound(rewards[..n], x) + (if rewards[n].item == x then rewards[n].num else 0)
  }

  /** `n` rounds of `p` items. */
  ghost function Rounds(n: int, p: int): int {
    n * p
  }

  lemma RoundsDistribute(m: int, n: int, p: int, q: int)
    ensures Rounds(n, p + q) == Rounds(n, p) + Rounds(n, q)
    ensures Rounds(m + n, p) == Rounds(m, p) + Rounds(n, p)
    ensures Rounds(n, 0) == 0
    ensures 0 <= n && 0 <= p ==> 0 <= Rounds(n, p)
  {
  }

  /** A store after `n` rounds of rewards were added, entry by entry. */
  ghost function Stored(m: map<int, int>, rewards: seq<Reward>, n: int): map<int, int> {
    if rewards == [] then m else
      var r := rewards[|rewards| - 1];
      var s := Stored(m, rewards[..|rewards| - 1], n);
      s[r.item := Count(s, r.item) + Rounds(n, r.num)]
  }

  lemma {:induction false} StoredCount(m: map<int, int>, rewards: seq<Reward>, n: int, x: int)
    ensures Count(Stored(m, rewards, n), x) == Count(m, x) + Rounds(n, PerRound(rewards, x))
    decreases |rewards|
  {
    hide Rounds;
    if rewards == [] {
      RoundsDistribute(0, n, 0, 0);
    } else {
      var k := |rewards| - 1;
      StoredCount(m, rewards[..k], n, x);
      RoundsDistribute(0, n, PerRound(rewards[..k], x), rewards[k].num);
    }
  }

  /** Division and remainder as the server computes them: towards zero. */
  function Div(a: int, b: period): int
  {
    if a >= 0 then a / b else -((-a) / b)
  }

  function Mod(a: int, b: period): int
  {
    a - Div(a, b) * b
  }

  /** Income of a player who has been away for eight hours is counted up to then. */
  function Until(countedTo: int, lastLogout: int, now: int): int {
    if lastLogout > 0 && lastLogout >= countedTo && now - lastLogout >= OFFLINE_SECS then lastLogout + OFFLINE_SECS else now
  }

  /** A bag after something was added to it, or taken if it is negative and there is enough. */
  ghost function Credited(bag: map<int, int>, x: int, v: int): map<int, int> {
    if v > 0 || (v < 0 && Count(bag, x) >= -v) then bag[x := Count(bag, x) + v] else bag
  }

  /** The bag after everything in `m` was credited. */
  ghost predicate Merged(bag: map<int, int>, m: map<int, int>, result: map<int, int>) {
    forall x :: Count(result, x) == Count(if x in m then Credited(bag, x, m[x]) else bag, x)
  }

  /** A cache that cannot be collected: nothing is paid now, and the scratch map for the sum is missing. */
  predicate Stuck(c: Campaign, s: Income) {
    c.rewards == [] && s.cache != map[]
  }

  /** One look at the income: `toCache` stores it, otherwise it is collected together with the cache. */
  ghost predicate Looked(c: Campaign, s: Income, lastLogout: int, now: int, toCache: bool, t: Income) {
    var st := Until(s.countedTo, lastLogout, now) - s.countedTo;
    var n := Div(st, c.secs);
    if toCache then
      t == Income(now - Mod(st, c.secs), Stored(s.cache, c.rewards, n), s.bag)
    else if Stuck(c, s) then
      t == s
    else
      && t.countedTo == now - Mod(st, c.secs) && t.cache == map[]
      && exists pay: map<int, int> ::
           (forall x :: Count(pay, x) == Count(s.cache, x) + Count(Stored(map[], c.rewards, n), x))
           && Merged(s.bag, pay, t.bag)
  }

  /** What a player has of an item, cached or in the bag. */
  ghost function Credit(s: Income, x: int): int {
    Count(s.bag, x) + Count(s.cache, x)
  }

  ghost predicate Sound(s: Income) {
    forall x | x in s.cache :: s.cache[x] >= 0
  }

  /** A look at the income of the campaign that is running then. */
  datatype Look = Look(campaign: Campaign, now: int, lastLogout: int, toCache: bool)

  ghost predicate Leads(s: Income, l: Look, t: Income) {
    Looked(l.campaign, s, l.lastLogout, l.now, l.toCache, t)
  }

  /** The seconds a look counts. */
  ghost function Since(s: Income, l: Look): int {
    Until(s.countedTo, l.lastLogout, l.now) - s.countedTo
  }

  /** What a look earns of an item. */
  ghost function Earned(s: Income, l: Look, x: int): int {
    Rounds(Since(s, l) / l.campaign.secs, PerRound(l.campaign.rewards, x))
  }

  /**
   Any look credits the rounds that passed, whether it collects or caches, whether the eight-hour limit
   applies, and even where it fails; nothing cached is lost.
   */
  lemma LookCredits(s: Income, l: Look, t: Income)
    requires Sound(s) && s.countedTo <= l.now && Leads(s, l, t)
    ensures Sound(t) && t.countedTo <= l.now
    ensures l.toCache || !Stuck(l.campaign, s) ==> t.countedTo == l.now - Since(s, l) % l.campaign.secs
    ensures forall x :: Credit(t, x) == Credit(s, x) + Earned(s, l, x)
  {
    var c := l.campaign;
    var n := Since(s, l) / c.secs;
    WholeRounds(Since(s, l), c.secs);
    forall x
      ensures Credit(t, x) == Credit(s, x) + Rounds(n, PerRound(c.rewards, x))
      ensures x in t.cache ==> t.cache[x] >= 0
    {
      StoredCount(s.cache, c.rewards, n, x);
      StoredCount(map[], c.rewards, n, x);
      RoundsDistribute(0, n, PerRound(c.rewards, x), 0);
      hide Rounds, Div, Mod, Stored, Until;
      if !l.toCache && !Stuck(c, s) {
        hide PerRound;
        var pay: map<int, int> :|
          (forall y :: Count(pay, y) == Count(s.cache, y) + Count(Stored(map[], c.rewards, n), y))
          && Merged(s.bag, pay, t.bag);
        hide Looked;
        Collected(s.bag, pay, t.bag, x);
      }
    }
  }

  lemma WholeRounds(st: nat, secs: period)
    ensures Div(st, secs) == st / secs >= 0 && Mod(st, secs) == st % secs
  {
  }

  lemma Collected(bag: map<int, int>, pay: map<int, int>, result: map<int, int>, x: int)
    requires Merged(bag, pay, result) && Count(pay, x) >= 0
    ensures Count(result, x) == Count(bag, x) + Count(pay, x)
  {
  }

  /** Looking twice counts the same rounds as looking once at the end. */
  lemma RoundsAdd(secs: period, start: int, mid: int, end: int)
    requires start <= mid <= end
    ensures var counted := mid - (mid - start) % secs;
      && (mid - start) / secs + (end - counted) / secs == (end - start) / secs
      && (end - counted) % secs == (end - start) % secs
  {
    var q, r := (mid - start) / secs, (mid - start) % secs;
    var a := end - (mid - r);
    assert end - start == q * secs + a;
    Shift(a, q, secs);
  }

  lemma Shift(a: nat, q: nat, b: nat)
    requires b > 0
    ensures (q * b + a) / b == q + a / b && (q * b + a) % b == a % b
    decreases q
  {
    if q > 0 {
      Shift(a, q - 1, b);
      var y := (q - 1) * b + a;
      assert q * b + a == y + b;
      StepUp(y, b);
    }
  }

  lemma StepUp(y: nat, b: nat)
    requires b > 0
    ensures (y + b) / b == y / b + 1 && (y + b) % b == y % b
  {
    var q, r := y / b, y % b;
    assert y + b == (q + 1) * b + r;
    var d := (y + b) / b - (q + 1);
    assert d * b == r - (y + b) % b;
  }

  /** A run of looks, under whatever campaigns, with the states before, between and after them. */
  ghost predicate Run(states: seq<Income>, looks: seq<Look>) {
    && |states| == |looks| + 1 && Sound(states[0]) && (looks != [] ==> states[0].countedTo <= looks[0].now)
    && (forall i, j | 0 <= i < j < |looks| :: looks[i].now <= looks[j].now)
    && (forall i | 0 <= i < |looks| :: Leads(states[i], looks[i], states[i + 1]))
  }

  /** What all looks of a run earn of an item together. */
  ghost function EarnedAll(states: seq<Income>, looks: seq<Look>, x: int): int
    requires |states| == |looks| + 1
  {
    if looks == [] then 0 else
      var n := |looks| - 1;
      EarnedAll(states[..n + 1], looks[..n], x) + Earned(states[n], looks[n], x)
  }

  /** Over every run, switches of the campaign and failed looks included, exactly what the looks earn is credited. */
  lemma {:induction false} RunCredits(states: seq<Income>, looks: seq<Look>)
    requires Run(states, looks)
    ensures var n := |looks|; Sound(states[n]) && (n > 0 ==> states[n].countedTo <= looks[n - 1].now)
    ensures forall x :: Credit(states[|looks|], x) == Credit(states[0], x) + EarnedAll(states, looks, x)
    decreases |looks|
  {
    hide Leads, Earned, Credit, Sound;
    if looks != [] {
      var n := |looks| - 1;
      RunCredits(states[..n + 1], looks[..n]);
      LookCredits(states[n], looks[n], states[n + 1]);
    }
  }

  /** A look while the eight-hour limit does not apply. */
  ghost predicate Uncapped(s: Income, l: Look) {
    Until(s.countedTo, l.lastLogout, l.now) == l.now
  }

  /** The limit cuts off what lies more than eight hours after the logout, and nothing else. */
  lemma LimitExactly(s: Income, l: Look)
    ensures var cut := 0 < l.lastLogout && s.countedTo <= l.lastLogout && l.lastLogout + 28800 < l.now;
      && Since(s, l) == (if cut then l.lastLogout + 28800 else l.now) - s.countedTo <= l.now - s.countedTo
      && (Uncapped(s, l) <==> !cut)
  {
  }

  /** At time `now` the rounds since `s` are credited on top of what `s` had, and only they. */
  ghost predicate Paid(c: Campaign, s: Income, now: int, t: Income) {
    && Sound(t) && s.countedTo <= now && t.countedTo == now - (now - s.countedTo) % c.secs && !Stuck(c, t)
    && forall x :: Credit(t, x) == Credit(s, x) + Rounds((now - s.countedTo) / c.secs, PerRound(c.rewards, x))
  }

  lemma StaysCollectable(s: Income, l: Look, t: Income)
    requires Leads(s, l, t) && !Stuck(l.campaign, s)
    ensures !Stuck(l.campaign, t)
  {
  }

  lemma FirstPaid(s: Income, l: Look, t: Income)
    requires Sound(s) && s.countedTo <= l.now && Uncapped(s, l) && Leads(s, l, t) && !Stuck(l.campaign, s)
    ensures Paid(l.campaign, s, l.now, t)
  {
    LookCredits(s, l, t);
    StaysCollectable(s, l, t);
  }

  lemma PaidNext(s: Income, mid: int, t: Income, l: Look, u: Income)
    requires Paid(l.campaign, s, mid, t) && mid <= l.now && Uncapped(t, l) && Leads(t, l, u)
    ensures Paid(l.campaign, s, l.now, u)
  {
    var c := l.campaign;
    FirstPaid(t, l, u);
    RoundsAdd(c.secs, s.countedTo, mid, l.now);
    var a, b := (mid - s.countedTo) / c.secs, (l.now - t.countedTo) / c.secs;
    assert a + b == (l.now - s.countedTo) / c.secs;
    hide Rounds, PerRound, Leads, Until;
    forall x
      ensures Credit(u, x) == Credit(s, x) + Rounds(a + b, PerRound(c.rewards, x))
    {
      RoundsDistribute(a, b, PerRound(c.rewards, x), 0);
    }
  }

  /**
   Whatever the schedule of caching and collecting under one campaign, all looks together credit the rounds from
   the start to the last look, and the time not yet paid is the same as if nobody had looked before.
   */
  lemma {:induction false} ScheduleDoesNotMatter(c: Campaign, states: seq<Income>, looks: seq<Look>)
    requires Run(states, looks) && looks != [] && !Stuck(c, states[0])
    requires forall i | 0 <= i < |looks| :: looks[i].campaign == c && Uncapped(states[i], looks[i])
    ensures Paid(c, states[0], looks[|looks| - 1].now, states[|looks|])
    decreases |looks|
  {
    var n := |looks| - 1;
    hide Leads, Paid, Uncapped, Stuck;
    if n == 0 {
      FirstPaid(states[0], looks[0], states[1]);
    } else {
      ScheduleDoesNotMatter(c, states[..n + 1], looks[..n]);
      PaidNext(states[0], looks[n - 1].now, states[n], looks[n], states[n + 1]);
    }
  }

  /**
   A look after at least eight hours away counts up to eight hours after the logout.  If the period is
   no longer than that, no later look is limited by the same logout again, so nothing is paid twice.
   */
  lemma CappedLook(s: Income, l: Look, t: Income, later: Look)
    requires Sound(s) && Leads(s, l, t) && (l.toCache || !Stuck(l.campaign, s))
    requires 0 < l.lastLogout && s.countedTo <= l.lastLogout && l.lastLogout + OFFLINE_SECS <= l.now
    ensures var n := (l.lastLogout + OFFLINE_SECS - s.countedTo) / l.campaign.secs;
      forall x :: Credit(t, x) == Credit(s, x) + Rounds(n, PerRound(l.campaign.rewards, x))
    ensures l.campaign.secs <= OFFLINE_SECS && later.lastLogout == l.lastLogout ==>
      l.lastLogout < t.countedTo && Uncapped(t, later)
  {
    LookCredits(s, l, t);
  }

  /**
   Caching under a campaign with rewards and then running one without leaves the cache stuck: collecting changes
   nothing, until a campaign with rewards runs again.
   */
  lemma SwitchGetsStuck(s: Income, l: Look, t: Income, next: Look, u: Income)
    requires Leads(s, l, t) && l.toCache && l.campaign.rewards != []
    requires Leads(t, next, u) && !next.toCache
    ensures Stuck(next.campaign, t) <==> next.campaign.rewards == []
    ensures next.campaign.rewards == [] ==> u == t
    ensures next.campaign.rewards != [] ==> u.cache == map[]
  {
    var r := l.campaign.rewards[|l.campaign.rewards| - 1];
    assert r.item in t.cache;
  }

  /** A player's columns for the income of the campaign left running. */
  class HangupIncome {
    var countedTo: int
    var cache: map<int, int>
    var bag: map<int, int>

    ghost function State(): Income
      reads this
    {
      Income(countedTo, cache, bag)
    }

    /** Leaving a campaign running starts the count. */
    constructor (now: int, bag: map<int, int>)
      ensures State() == Income(now, map[], bag) && Sound(State())
    {
      countedTo, cache, this.bag := now, map[], bag;
    }

    method CacheStaticIncome(item: int, num: int)
      modifies this`cache
      ensures cache == old(cache)[item := Count(old(cache), item) + num]
    {
      if item !in cache {
        cache := cache[item := num];
      } else {
        cache := cache[item := cache[item] + num];
      }
    }

    /** Caches `n` rounds of rewards. */
    method CacheRounds(rewards: seq<Reward>, n: int)
      modifies this`cache
      ensures cache == Stored(old(cache), rewards, n)
    {
      var i := 0;
      while i < |rewards|
        invariant 0 <= i <= |rewards| && cache == Stored(old(cache), rewards[..i], n)
      {
        assert rewards[..i + 1][..i] == rewards[..i];
        CacheStaticIncome(rewards[i].item, n * rewards[i].num);
        i := i + 1;
      }
      assert rewards[..i] == rewards;
    }

    /** Adds up `n` rounds of rewards without storing them. */
    method CountRounds(rewards: seq<Reward>, n: int) returns (pay: map<int, int>)
      ensures pay == Stored(map[], rewards, n)
    {
      pay := map[];
      var i := 0;
      while i < |rewards|
        invariant 0 <= i <= |rewards| && pay == Stored(map[], rewards[..i], n)
      {
        assert rewards[..i + 1][..i] == rewards[..i];
        pay := pay[rewards[i].item := Count(pay, rewards[i].item) + n * rewards[i].num];
        i := i + 1;
      }
      assert rewards[..i] == rewards;
    }

    /** Adds what is cached to what is paid. */
    method AddCached(pay: map<int, int>) returns (all: map<int, int>)
      ensures forall x :: Count(all, x) == Count(pay, x) + Count(cache, x)
    {
      all := pay;
      var left := cache.Keys;
      while exists x :: x in left
        invariant left <= cache.Keys
        invariant forall x :: Count(all, x) == Count(pay, x) + if x in left then 0 else Count(cache, x)
        decreases |left|
      {
        var x :| x in left;
        left := left - {x};
        all := all[x := Count(all, x) + cache[x]];
      }
    }

    method AddResource(x: int, v: int)
      modifies this`bag
      ensures bag == Credited(old(bag), x, v)
    {
      if v > 0 {
        bag := bag[x := Count(bag, x) + v];
      } else if v < 0 && Count(bag, x) >= -v {
        bag := bag[x := Count(bag, x) + v];
      }
    }

    /** Credits everything that is paid, in any order. */
    method PayOut(pay: map<int, int>)
      modifies this`bag
      ensures Merged(old(bag), pay, bag)
    {
      var left := pay.Keys;
      ghost var was := bag;
      while exists x :: x in left
        invariant left <= pay.Keys
        invariant forall x | x in pay && x !in left :: Count(bag, x) == Count(Credited(was, x, pay[x]), x)
        invariant forall x | x !in pay || x in left :: Count(bag, x) == Count(was, x)
        decreases |left|
      {
        var x :| x in left;
        left := left - {x};
        AddResource(x, pay[x]);
      }
    }

    /** Counts the rounds since `last` and caches or collects them; fails where no scratch map exists. */
    method GetStaticIncome(c: Campaign, last: int, now: int, toCache: bool) returns (ok: bool, correctSecs: int)
      modifies this`cache, this`bag
      ensures correctSecs == Mod(now - last, c.secs) && ok == (toCache || !Stuck(c, old(State())))
      ensures !ok ==> cache == old(cache) && bag == old(bag)
      ensures toCache ==> bag == old(bag) && cache == Stored(old(cache), c.rewards, Div(now - last, c.secs))
      ensures ok && !toCache ==> cache == map[] && exists pay: map<int, int> ::
        (forall x :: Count(pay, x) == Count(old(cache), x) + Count(Stored(map[], c.rewards, Div(now - last, c.secs)), x))
        && Merged(old(bag), pay, bag)
    {
      var st := now - last;
      correctSecs := Mod(st, c.secs);
      var n := Div(st, c.secs);
      hide Stored, Merged, Div, Mod;
      if toCache {
        CacheRounds(c.rewards, n);
        return true, correctSecs;
      }
      if c.rewards == [] && cache != map[] {
        return false, correctSecs;
      }
      var pay := CountRounds(c.rewards, n);
      pay := AddCached(pay);
      cache := map[];
      PayOut(pay);
      ok := true;
    }

    /** Looks at the income of the running campaign. */
    method HangupIncomeGet(c: Campaign, lastLogout: int, now: int, toCache: bool) returns (ok: bool)
      modifies this
      ensures Looked(c, old(State()), lastLogout, now, toCache, State())
      ensures ok == (toCache || !Stuck(c, old(State())))
    {
      hide Stored, Merged, Div, Mod;
      var secs;
      if lastLogout > 0 && lastLogout >= countedTo && now - lastLogout >= OFFLINE_SECS {
        ok, secs := GetStaticIncome(c, countedTo, lastLogout + OFFLINE_SECS, toCache);
      } else {
        ok, secs := GetStaticIncome(c, countedTo, now, toCache);
      }
      if ok {
        countedTo := now - secs;
      }
    }
  }
}
