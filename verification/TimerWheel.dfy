/** The connection timeout wheel: who has to be logged out when, kept in a ring of timer lists. */
module TimerWheels {
  import opened Rings
  import opened Sequences
  import opened TimerLists
  import opened TimerRuns

  /** A player's entry: where its timer is. */
  datatype ConnTimerPlayer = ConnTimerPlayer(playerId: int, timerList: ConnTimerList, timer: ConnTimer)

  class ConnTimerWheel {
    const heartbeat: nat
    const timerLists: array<ConnTimerList?>
    var currTimerIndex: int
    var lastCheckTime: int
    var players: map<int, ConnTimerPlayer>

    /** Every list that is or was in the ring, and every timer in one of them. */
    ghost var lists: set<ConnTimerList>
    ghost var timers: set<ConnTimer>

    /** How many seconds after the last check each player with a running timer times out. */
    ghost var left: map<int, int>

    /** The entry of a player and its one timer belong together. */
    ghost predicate Entry(id: int)
      reads this`players, this`timers, this`lists, lists
    {
      id in players
      && var p := players[id];
         p.playerId == id && p.timer in timers && p.timer.playerId == id
         && p.timerList == p.timer.home && p.timerList in lists && p.timer in p.timerList.nodes
    }

    /** A well-formed list of known timers. */
    ghost predicate Chained(l: ConnTimerList)
      reads this`timers, l, timers
    {
      (forall n | n in l.nodes :: n in timers) && l.Valid()
    }

    /** Every timer of the list is the one of its player. */
    ghost predicate Owned(l: ConnTimerList)
      reads this`players, l
    {
      forall n | n in l.nodes :: n.playerId in players && players[n.playerId].timer == n
    }

    /** The ring has three heartbeat intervals of slots, and no list fills two of them. */
    ghost predicate Ring()
      reads this`lists, this`currTimerIndex, timerLists
    {
      && 0 < heartbeat && timerLists.Length == 3 * heartbeat && -1 <= currTimerIndex < timerLists.Length
      && (forall i | 0 <= i < timerLists.Length && timerLists[i] != null :: timerLists[i] in lists)
      && (forall i, j | 0 <= i < j < timerLists.Length && timerLists[i] != null :: timerLists[i] != timerLists[j])
    }

    ghost predicate Entries()
      reads this`players, this`timers, this`lists, lists
    {
      (forall id | id in players :: Entry(id)) && (forall l | l in lists :: Owned(l))
    }

    ghost predicate Chains()
      reads this`timers, this`lists, timers, lists
    {
      forall l | l in lists :: Chained(l)
    }

    /** Which list each player's timer is in. */
    ghost function Where(): (at: map<int, ConnTimerList?>)
      reads this`players
    {
      map id | id in players :: players[id].timerList
    }

    ghost predicate Valid()
      reads this, timerLists, lists, timers
    {
      Ring() && Entries() && Chains() && OnTime(timerLists[..], Where(), left, currTimerIndex, heartbeat)
    }

    constructor (heartbeat: nat)
      requires 0 < heartbeat
      ensures Valid() && players == map[] && left == map[] && this.heartbeat == heartbeat && lastCheckTime == 0
      ensures fresh(timerLists) && lists == {} && timers == {}
    {
      this.heartbeat := heartbeat;
      timerLists := new ConnTimerList?[3 * heartbeat](_ => null);
      currTimerIndex := -1;
      lastCheckTime := 0;
      players := map[];
      lists, timers, left := {}, {}, map[];
    }

    /** Takes a timer out of its list. */
    method DropTimer(list: ConnTimerList, timer: ConnTimer)
      requires Chains() && list in lists && timer in list.nodes
      modifies list, timers
      ensures Chains() && list.nodes == Without(old(list.nodes), timer)
      ensures timer.next == old(timer.next)
      ensures forall l, n | l in lists :: n in l.nodes <==> n in old(l.nodes) && n != timer
    {
      assert Chained(list);
      WithoutMembers(list.nodes, timer);
      WithoutGone(list.nodes, timer);
      hide Without, Linked, Distinct;
      list.Remove(timer);
      forall l | l in lists
        ensures Chained(l)
        ensures forall n :: n in l.nodes <==> n in old(l.nodes) && n != timer
      {
        assert old(Chained(l));
        assert l != list ==> l.nodes == old(l.nodes);
      }
      hide Chained;
    }

    /** Takes a player's timer out of its list and forgets the player. */
    method RemoveEntry(p: ConnTimerPlayer)
      requires Valid() && p.playerId in players && players[p.playerId] == p
      modifies this`players, this`left, p.timerList, timers
      ensures Valid()
      ensures players == old(players) - {p.playerId} && left == old(left) - {p.playerId}
      ensures p.timerList.nodes == Without(old(p.timerList.nodes), p.timer)
      ensures p.timer.next == old(p.timer.next)
    {
      assert Entry(p.playerId);
      OnTimeWithout(timerLists[..], Where(), left, currTimerIndex, heartbeat, p.playerId);
      DropTimer(p.timerList, p.timer);
      players := players - {p.playerId};
      left := left - {p.playerId};
      assert Where() == old(Where()) - {p.playerId};
      hide OnTime, Chains, Without;
      forall id | id in players
        ensures Entry(id)
      {
        assert old(Entry(id));
      }
      forall l | l in lists
        ensures Owned(l)
      {
        assert old(Owned(l));
      }
    }

    /** Forgets a player, if there. */
    method Remove(playerId: int) returns (ok: bool)
      requires Valid()
      modifies this`players, this`left, lists, timers
      ensures Valid() && ok == (playerId in old(players))
      ensures players == old(players) - {playerId} && left == old(left) - {playerId}
      ensures ok ==> var p := old(players)[playerId];
        p.timerList.nodes == Without(old(p.timerList.nodes), p.timer) && p.timer.next == old(p.timer.next)
    {
      if playerId !in players {
        assert playerId !in left;
        return false;
      }
      assert Entry(playerId);
      hide OnTime, Chains, Without;
      RemoveEntry(players[playerId]);
      return true;
    }

    /** The list of a slot, made when first needed. */
    method OpenSlot(i: nat) returns (list: ConnTimerList)
      requires Valid() && i < timerLists.Length
      modifies this`lists, timerLists
      ensures Valid() && timerLists[i] == list && list in lists
      ensures fresh(lists - old(lists))
    {
      if timerLists[i] != null {
        return timerLists[i];
      }
      list := new ConnTimerList();
      assert forall id | id in players :: Entry(id);
      OnTimeOpen(timerLists[..], Where(), left, currTimerIndex, heartbeat, i, list);
      timerLists[i] := list;
      lists := lists + {list};
      assert timerLists[..] == old(timerLists[..])[i := list];
      hide OnTime;
      forall l | l in lists
        ensures Chained(l) && Owned(l)
      {
        assert l != list ==> old(Chained(l) && Owned(l));
      }
    }

    /** A new timer at the end of a list. */
    method AddTimer(playerId: int, list: ConnTimerList) returns (timer: ConnTimer)
      requires Chains() && list in lists
      modifies this`timers, list, timers
      ensures Chains() && fresh(timer) && timer.playerId == playerId && timer.home == list
      ensures timers == old(timers) + {timer} && timer in list.nodes
      ensures forall l, n | l in lists :: n in l.nodes <==> n in old(l.nodes) || (n == timer && l == list)
    {
      assert Chained(list);
      timer := list.Add(playerId);
      timers := timers + {timer};
      hide Linked, Distinct;
      forall l | l in lists
        ensures Chained(l)
        ensures forall n :: n in l.nodes <==> n in old(l.nodes) || (n == timer && l == list)
      {
        assert old(Chained(l));
        assert l != list ==> l.nodes == old(l.nodes);
      }
      hide Chained;
    }

    lemma RingSize()
      requires Valid()
      ensures 0 < heartbeat < timerLists.Length
    {
    }

    /** Starts a player's timer over: it times out one heartbeat interval after the last check. */
    method Insert(playerId: int) returns (ok: bool)
      requires Valid()
      modifies this`players, this`left, this`lists, this`timers, timerLists, lists, timers
      ensures ok && Valid()
      ensures players.Keys == old(players.Keys) + {playerId} && left == old(left)[playerId := heartbeat]
      ensures fresh(lists - old(lists)) && fresh(timers - old(timers))
    {
      hide *;
      RingSize();
      var _ := Remove(playerId);
      var list := OpenSlot(Slot(currTimerIndex, timerLists.Length, heartbeat));
      Enrol(playerId, list);
      return true;
    }

    /** Gives a player without an entry a timer in the slot one heartbeat interval ahead. */
    method Enrol(playerId: int, list: ConnTimerList)
      requires Valid() && playerId !in players && list in lists
      requires list == timerLists[Slot(currTimerIndex, timerLists.Length, heartbeat)]
      modifies this`players, this`left, this`timers, list, timers
      ensures Valid()
      ensures players.Keys == old(players.Keys) + {playerId} && left == old(left)[playerId := heartbeat]
      ensures fresh(timers - old(timers))
    {
      OnTimePlus(timerLists[..], Where(), left, currTimerIndex, heartbeat, playerId);
      hide OnTime, Chains, Ring;
      var timer := AddTimer(playerId, list);
      forall id | id in players
        ensures Entry(id)
      {
        assert old(Entry(id));
      }
      forall l | l in lists
        ensures OwnedBut(l, timer)
      {
        assert old(Owned(l));
      }
      Record(playerId, list, timer);
    }

    /** Every timer of the list, except perhaps `timer`, is the one of its player. */
    ghost predicate OwnedBut(l: ConnTimerList, timer: ConnTimer)
      reads this`players, l
    {
      forall n | n in l.nodes && n != timer :: n.playerId in players && players[n.playerId].timer == n
    }

    /** Files a new timer, which is already in its list, under its player. */
    method Record(playerId: int, list: ConnTimerList, timer: ConnTimer)
      requires Ring() && Chains() && playerId !in players && list in lists
      requires timer in timers && timer in list.nodes && timer.playerId == playerId && timer.home == list
      requires (forall id | id in players :: Entry(id)) && forall l | l in lists :: OwnedBut(l, timer)
      requires OnTime(timerLists[..], Where()[playerId := list], left[playerId := heartbeat], currTimerIndex, heartbeat)
      modifies this`players, this`left
      ensures Valid()
      ensures players.Keys == old(players.Keys) + {playerId} && left == old(left)[playerId := heartbeat]
    {
      hide OnTime, Chains, Ring;
      players := players[playerId := ConnTimerPlayer(playerId, list, timer)];
      left := left[playerId := heartbeat];
      assert Where() == old(Where())[playerId := list];
      forall id | id in players
        ensures Entry(id)
      {
        assert id != playerId ==> old(Entry(id));
      }
      forall l | l in lists
        ensures Owned(l)
      {
        assert old(OwnedBut(l, timer));
      }
    }

    /** The timers in the slot at offset `k` are exactly those that end there. */
    lemma InSlot(list: ConnTimerList, k: int)
      requires Valid() && 1 <= k <= timerLists.Length
      requires timerLists[Slot(currTimerIndex, timerLists.Length, k)] == list && list in lists
      ensures forall n | n in list.nodes :: n.playerId in left && left[n.playerId] == k
      ensures forall id | id in left && left[id] == k :: players[id].timer in list.nodes && players[id].timer.playerId == id
    {
      assert Owned(list) && Chained(list);
      forall n | n in list.nodes
        ensures n.playerId in left && left[n.playerId] == k
      {
        assert Entry(n.playerId) && n.home == list;
        var id := n.playerId;
        assert Where()[id] == timerLists[..][Slot(currTimerIndex, timerLists.Length, k)];
        SlotApart(currTimerIndex, timerLists.Length, left[id], k);
      }
      forall id | id in left && left[id] == k
        ensures players[id].timer in list.nodes && players[id].timer.playerId == id
      {
        assert Entry(id);
      }
    }

    /** One step of the walk over a list: the timer after `kept` goes if its player is known. */
    method SweepTimer(list: ConnTimerList, ghost k: int, known: set<int>, t: ConnTimer, ghost kept: seq<ConnTimer>, ghost rest: seq<ConnTimer>)
      requires Valid() && 1 <= k <= timerLists.Length
      requires timerLists[Slot(currTimerIndex, timerLists.Length, k)] == list && list in lists
      requires list.nodes == kept + [t] + rest
      modifies this`players, this`left, lists, timers
      ensures Valid() && t.next == At(rest, 0)
      ensures t.playerId in old(left) && old(left)[t.playerId] == k
      ensures if t.playerId in known then
          list.nodes == kept + rest && players == old(players) - {t.playerId} && left == old(left) - {t.playerId}
        else list.nodes == kept + [t] + rest && players == old(players) && left == old(left)
    {
      InSlot(list, k);
      assert Chained(list) && Owned(list);
      assert list.nodes[|kept|] == t && t in list.nodes;
      assert t.next == At(rest, 0);
      WithoutAt(list.nodes, |kept|);
      assert Take(list.nodes, |kept|) == kept + rest;
      if t.playerId in known {
        assert Entry(t.playerId);
        hide OnTime, Chains, Slot, Without, Linked, Entries;
        var ok := Remove(t.playerId);
      }
    }

    lemma NobodyLeft(list: ConnTimerList, k: int, known: set<int>)
      requires Valid() && 1 <= k <= timerLists.Length
      requires timerLists[Slot(currTimerIndex, timerLists.Length, k)] == list && list in lists
      requires forall n | n in list.nodes :: n.playerId !in known
      ensures forall id | id in left && left[id] == k :: id !in known
    {
      InSlot(list, k);
    }

    lemma EmptyMeansNobody(k: int)
      requires Valid() && 1 <= k <= timerLists.Length
      requires timerLists[Slot(currTimerIndex, timerLists.Length, k)] == null
      ensures forall id | id in left :: left[id] != k
    {
      forall id | id in left
        ensures left[id] != k
      {
        assert Where()[id] == timerLists[..][Slot(currTimerIndex, timerLists.Length, left[id])];
      }
    }

    /**
     The walk over the list at offset `k` so far: `out` went, `kept` stayed, `rest` is to come.
     The walk began with `players0` and `left0`.
     */
    ghost predicate Walking(list: ConnTimerList, k: int, known: set<int>, players0: map<int, ConnTimerPlayer>,
                            left0: map<int, int>, kept: seq<ConnTimer>, rest: seq<ConnTimer>, out: seq<int>)
      reads this, timerLists, lists, timers, list
    {
      && Valid() && 1 <= k <= timerLists.Length
      && timerLists[Slot(currTimerIndex, timerLists.Length, k)] == list && list in lists
      && list.nodes == kept + rest && (forall n | n in kept :: n.playerId !in known)
      && (forall id | id in out :: id in left0 && left0[id] == k && id in known)
      && (forall a, b | 0 <= a < b < |out| :: out[a] != out[b])
      && players == Removed(players0, out) && left == Removed(left0, out)
    }

    method WalkOn(list: ConnTimerList, ghost k: int, known: set<int>, ghost players0: map<int, ConnTimerPlayer>,
                  ghost left0: map<int, int>, ghost kept: seq<ConnTimer>, t: ConnTimer, ghost rest: seq<ConnTimer>, out: seq<int>)
      returns (out': seq<int>, ghost kept': seq<ConnTimer>)
      requires Walking(list, k, known, players0, left0, kept, [t] + rest, out)
      modifies this`players, this`left, lists, timers
      ensures Walking(list, k, known, players0, left0, kept', rest, out') && t.next == At(rest, 0)
    {
      hide OnTime, Chains, Entries, Slot, Linked, Removed, Ring;
      RemovedMore(players0, out, t.playerId);
      RemovedMore(left0, out, t.playerId);
      assert kept + ([t] + rest) == kept + [t] + rest;
      SweepTimer(list, k, known, t, kept, rest);
      out', kept' := out, kept;
      if t.playerId in known {
        out' := out + [t.playerId];
      } else {
        kept' := kept + [t];
      }
    }

    /** The walk is at the first timer of `todo`. */
    method WalkNext(list: ConnTimerList, ghost k: int, known: set<int>, ghost players0: map<int, ConnTimerPlayer>,
                    ghost left0: map<int, int>, ghost kept: seq<ConnTimer>, t: ConnTimer, ghost todo: seq<ConnTimer>, out: seq<int>)
      returns (out': seq<int>, ghost kept': seq<ConnTimer>, ghost rest: seq<ConnTimer>)
      requires Walking(list, k, known, players0, left0, kept, todo, out) && At(todo, 0) == t
      modifies this`players, this`left, lists, timers
      ensures Walking(list, k, known, players0, left0, kept', rest, out') && At(rest, 0) == t.next && |rest| < |todo|
    {
      hide Walking;
      rest := todo[1..];
      assert todo == [t] + rest;
      out', kept' := WalkOn(list, k, known, players0, left0, kept, t, rest, out);
    }

    /**
     Logs out the players of one list, unlinking each timer while walking over it.  `known` are
     the ids the server has a player for; the timers of others stay in the list.
     */
    method SweepList(list: ConnTimerList, ghost k: int, known: set<int>) returns (out: seq<int>)
      requires Valid() && 1 <= k <= timerLists.Length
      requires timerLists[Slot(currTimerIndex, timerLists.Length, k)] == list && list in lists
      modifies this`players, this`left, lists, timers
      ensures Valid()
      ensures SlotGone(out, old(left), known, k)
      ensures players == Removed(old(players), out) && left == Removed(old(left), out)
    {
      WalkStarts(list, k, known);
      hide Walking, OnTime, Chains, Entries, Ring, Removed, Slot, Linked, SlotGone, At;
      ghost var kept: seq<ConnTimer>, rest: seq<ConnTimer> := [], list.nodes;
      var t := list.head;
      out := [];
      while t != null
        invariant Walking(list, k, known, old(players), old(left), kept, rest, out) && t == At(rest, 0)
        decreases |rest|
      {
        out, kept, rest := WalkNext(list, k, known, old(players), old(left), kept, t, rest, out);
        t := t.next;
      }
      WalkedAll(list, k, known, old(players), old(left), kept, rest, out);
    }

    lemma WalkStarts(list: ConnTimerList, k: int, known: set<int>)
      requires Valid() && 1 <= k <= timerLists.Length
      requires timerLists[Slot(currTimerIndex, timerLists.Length, k)] == list && list in lists
      ensures Walking(list, k, known, players, left, [], list.nodes, []) && list.head == At(list.nodes, 0)
    {
      assert Chained(list);
      RemovedMore(players, [], 0);
      RemovedMore(left, [], 0);
    }

    lemma WalkedAll(list: ConnTimerList, k: int, known: set<int>, players0: map<int, ConnTimerPlayer>,
                    left0: map<int, int>, kept: seq<ConnTimer>, rest: seq<ConnTimer>, out: seq<int>)
      requires Walking(list, k, known, players0, left0, kept, rest, out) && At(rest, 0) == null
      ensures Valid()
      ensures SlotGone(out, left0, known, k)
      ensures players == Removed(players0, out) && left == Removed(left0, out)
    {
      hide OnTime, Chains, Entries, Ring;
      assert list.nodes == kept;
      NobodyLeft(list, k, known);
    }

    /** Sweeps the slot at offset `k` and leaves it empty. */
    method SweepSlot(i: nat, ghost k: int, known: set<int>) returns (out: seq<int>)
      requires Valid() && 1 <= k <= timerLists.Length && i == Slot(currTimerIndex, timerLists.Length, k)
      modifies this`players, this`left, timerLists, lists, timers
      ensures Valid() && left == Except(old(left), k)
      ensures SlotGone(out, old(left), known, k)
      ensures players == Removed(old(players), out)
    {
      hide OnTime, Entries, Chains, Slot;
      out := [];
      var list := timerLists[i];
      if list != null {
        out := SweepList(list, k, known);
      } else {
        EmptyMeansNobody(k);
        RemovedMore(players, [], 0);
        RemovedMore(left, [], 0);
      }
      ExceptRemoved(old(left), out, k);
      EmptySlot(i, k);
    }

    /** Drops what is left of a slot. */
    method EmptySlot(i: nat, ghost k: int)
      requires Valid() && 1 <= k <= timerLists.Length && i == Slot(currTimerIndex, timerLists.Length, k)
      modifies this`left, timerLists
      ensures Valid() && left == Except(old(left), k)
    {
      OnTimeSwept(timerLists[..], Where(), left, currTimerIndex, heartbeat, k, null);
      hide OnTime, Chains, Entries, Slot;
      timerLists[i] := null;
      left := Except(left, k);
      assert timerLists[..] == old(timerLists[..])[i := null];
    }

    /** A sweep that began with `players0` and `left0` and has visited the offsets before `k`. */
    ghost predicate Sweeping(k: int, known: set<int>, players0: map<int, ConnTimerPlayer>, left0: map<int, int>, out: seq<int>)
      reads this, timerLists, lists, timers
    {
      && Valid() && left == After(left0, k - 1)
      && LoggedOut(out, left0, known, k - 1) && players == Removed(players0, out)
    }

    method SweepOn(i: nat, ghost k: int, known: set<int>, ghost players0: map<int, ConnTimerPlayer>, ghost left0: map<int, int>, out: seq<int>)
      returns (out': seq<int>)
      requires Sweeping(k, known, players0, left0, out)
      requires 1 <= k <= timerLists.Length && i == Slot(currTimerIndex, timerLists.Length, k)
      modifies this`players, this`left, timerLists, lists, timers
      ensures Sweeping(k + 1, known, players0, left0, out')
    {
      hide OnTime, Chains, Entries, Ring, Slot, LoggedOut, Removed;
      AfterStep(left0, k);
      var more := SweepSlot(i, k, known);
      LoggedOutMore(out, more, left0, known, k);
      RemovedAll(players0, out, more);
      out' := out + more;
    }

    /**
     The sweep after the clock moved on: everybody whose timer ended is logged out, in order of
     deadline, whatever the number of seconds that passed.
     */
    method Sweep(now: int, known: set<int>) returns (out: seq<int>)
      requires Valid() && lastCheckTime < now
      modifies this`players, this`left, this`currTimerIndex, this`lastCheckTime, timerLists, lists, timers
      ensures Valid() && lastCheckTime == now
      ensures LoggedOut(out, old(left), known, now - old(lastCheckTime))
      ensures left == Running(old(left), now - old(lastCheckTime))
      ensures players == Removed(old(players), out)
    {
      hide OnTime, Entries, Chains, LoggedOut, Removed, Slot;
      var diff := now - lastCheckTime;
      var idx := SweepEnd(currTimerIndex, timerLists.Length, diff);
      ghost var len := SweepLength(currTimerIndex, timerLists.Length, diff);
      out := SweepDue(idx, diff, known);
      Advance(idx, len, now);
    }

    /** The sweep before index and clock move on. */
    method SweepDue(idx: int, ghost diff: int, known: set<int>) returns (out: seq<int>)
      requires Valid() && 0 < diff && idx == SweepEnd(currTimerIndex, timerLists.Length, diff)
      modifies this`players, this`left, timerLists, lists, timers
      ensures Valid() && players == Removed(old(players), out) && LoggedOut(out, old(left), known, diff)
      ensures var len := SweepLength(currTimerIndex, timerLists.Length, diff);
        && 1 <= len <= timerLists.Length && idx == Slot(currTimerIndex, timerLists.Length, len)
        && (forall id | id in left :: left[id] > len)
        && Later(left, len) == Running(old(left), diff)
    {
      ghost var curr, len := currTimerIndex, SweepLength(currTimerIndex, timerLists.Length, diff);
      assert forall id | id in left :: 1 <= left[id] <= heartbeat;
      SweepEnds(curr, timerLists.Length, diff, len);
      hide OnTime, Entries, Chains, LoggedOut, SweepEnd, Removed, Slot;
      out := SweepTo(idx, diff, known);
      SweepDone(out, old(left), known, curr, heartbeat, diff);
    }

    /** The loop over the slots, from the one after the current index to `idx`. */
    method SweepTo(idx: int, ghost diff: int, known: set<int>) returns (out: seq<int>)
      requires Valid() && 0 < diff && idx == SweepEnd(currTimerIndex, timerLists.Length, diff)
      modifies this`players, this`left, timerLists, lists, timers
      ensures Valid()
      ensures var len := SweepLength(currTimerIndex, timerLists.Length, diff);
        LoggedOut(out, old(left), known, len) && left == After(old(left), len) && players == Removed(old(players), out)
    {
      SweepStarts(known);
      var n := timerLists.Length;
      ghost var curr, len, k := currTimerIndex, SweepLength(currTimerIndex, n, diff), 1;
      assert 1 < n && -1 <= curr < n && 1 <= len <= n;
      hide Sweeping, Slot, OnTime, Entries, Chains, Ring, LoggedOut, SweepEnd, SweepLength, Removed, After;
      var i := (currTimerIndex + 1) % n;
      out := [];
      while true
        invariant Sweeping(k, known, old(players), old(left), out)
        invariant 1 <= k <= len && i == Slot(curr, n, k)
        decreases len - k
      {
        SweepEnds(curr, n, diff, k);
        out := SweepOn(i, k, known, old(players), old(left), out);
        if i == idx {
          break;
        }
        NextSlot(curr, n, k);
        i := (i + 1) % n;
        k := k + 1;
      }
      Swept(len, known, old(players), old(left), out);
    }

    lemma SweepStarts(known: set<int>)
      requires Valid()
      ensures Sweeping(1, known, players, left, [])
      ensures (currTimerIndex + 1) % timerLists.Length == Slot(currTimerIndex, timerLists.Length, 1)
    {
      AfterNone(left);
      RemovedMore(players, [], 0);
    }

    lemma Swept(len: int, known: set<int>, players0: map<int, ConnTimerPlayer>, left0: map<int, int>, out: seq<int>)
      requires Sweeping(len + 1, known, players0, left0, out)
      ensures Valid() && left == After(left0, len) && LoggedOut(out, left0, known, len) && players == Removed(players0, out)
    {
    }

    method Advance(idx: int, ghost len: int, now: int)
      requires Valid() && 1 <= len <= timerLists.Length && idx == Slot(currTimerIndex, timerLists.Length, len)
      requires forall id | id in left :: left[id] > len
      modifies this`left, this`currTimerIndex, this`lastCheckTime
      ensures Valid() && lastCheckTime == now && left == Later(old(left), len)
    {
      OnTimeMoves(timerLists[..], Where(), left, currTimerIndex, heartbeat, len);
      hide OnTime, Chains, Entries, Slot;
      currTimerIndex := idx;
      lastCheckTime := now;
      left := Later(left, len);
    }

    /** The clock and the running timers, as the connection handlers see them. */
    ghost function Clocked(): Clock
      reads this`lastCheckTime, this`left
    {
      Clock(lastCheckTime, left)
    }

    /** Takes the queued requests. */
    method Drain(ops: seq<Op>)
      requires Valid()
      modifies this`players, this`left, this`lists, this`timers, timerLists, lists, timers
      ensures Valid() && left == ApplyAll(old(left), heartbeat, ops)
      ensures fresh(lists - old(lists)) && fresh(timers - old(timers))
    {
      hide OnTime, Entries, Chains, Ring;
      var i := 0;
      while i < |ops|
        invariant 0 <= i <= |ops| && Valid()
        invariant ApplyAll(left, heartbeat, ops[i..]) == ApplyAll(old(left), heartbeat, ops)
        invariant fresh(lists - old(lists)) && fresh(timers - old(timers))
      {
        assert ops[i..][1..] == ops[i + 1..];
        match ops[i] {
          case InsertOp(id) => var ok := Insert(id);
          case RemoveOp(id) => var ok := Remove(id);
        }
        i := i + 1;
      }
    }

    lemma NothingDue(known: set<int>)
      requires Valid()
      ensures LoggedOut([], left, known, 0)
    {
    }

    /** Compares the clock with the last check and sweeps if it moved on; the first check only sets it. */
    method Check(now: int, known: set<int>) returns (out: seq<int>)
      requires Valid()
      modifies this`players, this`left, this`currTimerIndex, this`lastCheckTime, timerLists, lists, timers
      ensures Valid() && Clocked() == Tick(old(Clocked()), heartbeat, Round([], now))
      ensures LoggedOut(out, old(left), known, Elapsed(old(lastCheckTime), now))
    {
      hide OnTime, Entries, Chains, Ring;
      if lastCheckTime == 0 {
        lastCheckTime := now;
      }
      out := [];
      NothingDue(known);
      if now - lastCheckTime > 0 {
        out := Sweep(now, known);
      }
    }

    /** One round of the wheel's loop; `out` are the players logged out, in that order. */
    method RunOnce(ops: seq<Op>, now: int, known: set<int>) returns (out: seq<int>)
      requires Valid()
      modifies this, timerLists, lists, timers
      ensures Valid() && Clocked() == Tick(old(Clocked()), heartbeat, Round(ops, now))
      ensures var due := ApplyAll(old(left), heartbeat, ops);
        LoggedOut(out, due, known, Elapsed(old(lastCheckTime), now))
      ensures fresh(lists - old(lists)) && fresh(timers - old(timers))
    {
      hide OnTime, Entries, Chains, Ring, LoggedOut;
      Drain(ops);
      out := Check(now, known);
    }
  }
}
