/**
 The arithmetic of the timer ring, on values: `slots` is the ring, `at` tells which list each
 player's timer is in and `left` how many seconds after the last check each running timer ends.
 */
module Rings {

  /** The slot swept `k` seconds after the last check. */
  function Slot(curr: int, n: nat, k: int): (i: int)
    requires 0 < n
    ensures 0 <= i < n
  {
    (curr + k) % n
  }

  /** Running timers are in the slot of their deadline, the others in no slot at all. */
  ghost predicate OnTime<L>(slots: seq<L>, at: map<int, L>, left: map<int, int>, curr: int, h: nat) {
    && 0 < h && |slots| == 3 * h && -1 <= curr < |slots|
    && (forall id | id in left ::
          id in at && 1 <= left[id] <= h && slots[Slot(curr, |slots|, left[id])] == at[id])
    && (forall id, i | id in at && id !in left && 0 <= i < |slots| :: slots[i] != at[id])
  }

  /** Within one turn the remainder is a plain wrap-around. */
  lemma SlotWraps(curr: int, n: nat, k: int)
    requires 0 < n && 0 <= curr + k < 2 * n
    ensures Slot(curr, n, k) == if curr + k < n then curr + k else curr + k - n
  {
    if curr + k >= n {
      assert curr + k == n * 1 + (curr + k - n);
      ModShift(curr + k - n, n);
    } else {
      ModSmall(curr + k, n);
    }
  }

  lemma ModSmall(r: int, n: nat)
    requires 0 <= r < n
    ensures r % n == r
  {
  }

  lemma ModShift(r: int, n: nat)
    requires 0 <= r < n
    ensures (r + n) % n == r
  {
    ModSmall(r, n);
  }

  /** Different offsets of one turn are different slots. */
  lemma SlotApart(curr: int, n: nat, a: int, b: int)
    requires 0 < n && -1 <= curr < n && 1 <= a <= n && 1 <= b <= n
    ensures Slot(curr, n, a) == Slot(curr, n, b) ==> a == b
  {
    SlotWraps(curr, n, a);
    SlotWraps(curr, n, b);
  }

  /** Moving the origin `d` slots on brings everything `d` slots closer. */
  lemma SlotMoves(curr: int, n: nat, d: int, k: int)
    requires 0 < n && -1 <= curr < n && 1 <= d && 1 <= k && d + k <= n
    ensures Slot(Slot(curr, n, d), n, k) == Slot(curr, n, d + k)
  {
    SlotWraps(curr, n, d);
    SlotWraps(curr, n, d + k);
    SlotWraps(Slot(curr, n, d), n, k);
  }

  lemma OnTimeWithout<L>(slots: seq<L>, at: map<int, L>, left: map<int, int>, curr: int, h: nat, id: int)
    requires OnTime(slots, at, left, curr, h)
    ensures OnTime(slots, at - {id}, left - {id}, curr, h)
  {
    hide Slot;
  }

  /** An unused slot may get a new list. */
  lemma OnTimeOpen<L>(slots: seq<L>, at: map<int, L>, left: map<int, int>, curr: int, h: nat, i: nat, l: L)
    requires OnTime(slots, at, left, curr, h) && i < |slots|
    requires forall id | id in at :: at[id] != slots[i] && at[id] != l
    ensures OnTime(slots[i := l], at, left, curr, h)
  {
    hide Slot;
  }

  /** A new timer in the slot one interval ahead. */
  lemma OnTimePlus<L>(slots: seq<L>, at: map<int, L>, left: map<int, int>, curr: int, h: nat, id: int)
    requires OnTime(slots, at, left, curr, h) && id !in at
    ensures var l := slots[Slot(curr, |slots|, h)]; OnTime(slots, at[id := l], left[id := h], curr, h)
  {
    hide Slot;
  }

  /** The running timers that do not end at offset `k`. */
  ghost function Except(left: map<int, int>, k: int): (r: map<int, int>)
    ensures forall id | id in r :: id in left && left[id] != k && r[id] == left[id]
    ensures forall id | id in left && left[id] != k :: id in r
  {
    map id | id in left && left[id] != k :: left[id]
  }

  /** Emptying the slot at offset `k` stops exactly the timers that end there. */
  lemma OnTimeSwept<L>(slots: seq<L>, at: map<int, L>, left: map<int, int>, curr: int, h: nat, k: int, none: L)
    requires OnTime(slots, at, left, curr, h) && 1 <= k <= |slots|
    requires forall id | id in at :: at[id] != none
    requires forall i, j | 0 <= i < j < |slots| && slots[i] != none :: slots[i] != slots[j]
    ensures OnTime(slots[Slot(curr, |slots|, k) := none], at, Except(left, k), curr, h)
  {
    forall id | id in left && left[id] != k
      ensures Slot(curr, |slots|, left[id]) != Slot(curr, |slots|, k)
    {
      SlotApart(curr, |slots|, left[id], k);
    }
    hide Slot;
    var c := Slot(curr, |slots|, k);
    var swept := slots[c := none];
    forall id, i | id in at && id !in Except(left, k) && 0 <= i < |slots|
      ensures swept[i] != at[id]
    {
      if id in left && i != c {
        assert slots[c] == at[id];
      }
    }
  }

  /** What is left once `d` seconds have passed. */
  ghost function Later(left: map<int, int>, d: int): (r: map<int, int>)
    ensures r.Keys == left.Keys
    ensures forall id | id in left :: r[id] == left[id] - d
  {
    map id | id in left :: left[id] - d
  }

  /** When every timer that ended is gone, the origin may move on. */
  lemma OnTimeMoves<L>(slots: seq<L>, at: map<int, L>, left: map<int, int>, curr: int, h: nat, d: int)
    requires OnTime(slots, at, left, curr, h) && 1 <= d <= |slots|
    requires forall id | id in left :: left[id] > d
    ensures OnTime(slots, at, Later(left, d), Slot(curr, |slots|, d), h)
  {
    forall id | id in left
      ensures Slot(Slot(curr, |slots|, d), |slots|, left[id] - d) == Slot(curr, |slots|, left[id])
    {
      SlotMoves(curr, |slots|, d, left[id] - d);
    }
    hide Slot;
  }

  /** How far a sweep goes that comes `diff` seconds after the last one. */
  function SweepEnd(curr: int, n: nat, diff: int): int
    requires 0 < n && 0 < diff
  {
    if diff >= n then (if curr > 0 then curr - 1 else n - 1) else (curr + diff) % n
  }

  /** How many slots that sweep visits. */
  function SweepLength(curr: int, n: nat, diff: int): int
    requires 0 < n && 0 < diff
  {
    if diff < n then diff else if curr == -1 then n else n - 1
  }

  /** The sweep ends after `SweepLength` slots, be it a short one, a full turn or more. */
  lemma SweepEnds(curr: int, n: nat, diff: int, k: int)
    requires 1 < n && -1 <= curr < n && 0 < diff && 1 <= k <= SweepLength(curr, n, diff)
    ensures Slot(curr, n, k) == SweepEnd(curr, n, diff) <==> k == SweepLength(curr, n, diff)
  {
    SlotWraps(curr, n, k);
    SlotWraps(curr, n, SweepLength(curr, n, diff));
    if diff < n {
      SlotWraps(curr, n, diff);
    }
  }

  /** The next slot of a sweep. */
  lemma NextSlot(curr: int, n: nat, k: int)
    requires 0 < n && -1 <= curr < n && 1 <= k < n
    ensures (Slot(curr, n, k) + 1) % n == Slot(curr, n, k + 1)
  {
    SlotWraps(curr, n, k);
    SlotWraps(curr, n, k + 1);
    SlotWraps(Slot(curr, n, k), n, 1);
  }

  /** A sweep goes past every deadline it was late for: what it does not reach is still running. */
  lemma SweepReaches(curr: int, h: nat, diff: int, k: int)
    requires 0 < h && 0 < diff && 1 <= k <= h
    ensures k <= SweepLength(curr, 3 * h, diff) <==> k <= diff
  {
  }

  /** The timers that end after offset `k`. */
  ghost function After(left: map<int, int>, k: int): (r: map<int, int>)
    ensures forall id | id in r :: id in left && left[id] > k && r[id] == left[id]
    ensures forall id | id in left && left[id] > k :: id in r
  {
    map id | id in left && left[id] > k :: left[id]
  }

  /** What is left running once `d` seconds have passed. */
  ghost function Running(left: map<int, int>, d: int): (r: map<int, int>)
    ensures forall id | id in r :: id in left && left[id] > d && r[id] == left[id] - d
    ensures forall id | id in left && left[id] > d :: id in r
  {
    map id | id in left && left[id] > d :: left[id] - d
  }

  /** `out` lists, in order of deadline and once each, the timers of `left` that end by offset `k` and whose id is known. */
  ghost predicate LoggedOut(out: seq<int>, left: map<int, int>, known: set<int>, k: int) {
    && (forall a | 0 <= a < |out| :: out[a] in left && left[out[a]] <= k && out[a] in known)
    && (forall a, b | 0 <= a < b < |out| :: out[a] != out[b] && left[out[a]] <= left[out[b]])
    && (forall id | id in left && left[id] <= k && id in known :: id in out)
  }

  /** `out` lists, once each, the timers of `left` that end at offset `k` and whose id is known. */
  ghost predicate SlotGone(out: seq<int>, left: map<int, int>, known: set<int>, k: int) {
    && (forall id | id in out :: id in left && left[id] == k && id in known)
    && (forall a, b | 0 <= a < b < |out| :: out[a] != out[b])
    && (forall id | id in left && left[id] == k && id in known :: id in out)
  }

  /** One more slot of the sweep. */
  lemma LoggedOutMore(out: seq<int>, more: seq<int>, left: map<int, int>, known: set<int>, k: int)
    requires LoggedOut(out, left, known, k - 1)
    requires SlotGone(more, left, known, k)
    ensures LoggedOut(out + more, left, known, k)
  {
    var all := out + more;
    forall id | id in left && left[id] <= k && id in known
      ensures id in all
    {
      if left[id] == k {
        assert id in more;
      } else {
        assert id in out;
      }
    }
  }

  /** A map without the listed keys. */
  ghost function Removed<V>(m: map<int, V>, out: seq<int>): (r: map<int, V>)
    ensures forall id | id in r :: id in m && id !in out && r[id] == m[id]
    ensures forall id | id in m && id !in out :: id in r
  {
    map id | id in m && id !in out :: m[id]
  }

  lemma RemovedMore<V>(m: map<int, V>, out: seq<int>, id: int)
    ensures Removed(m, out + [id]) == Removed(m, out) - {id}
    ensures Removed(m, []) == m
  {
  }

  lemma RemovedAll<V>(m: map<int, V>, out: seq<int>, more: seq<int>)
    ensures Removed(Removed(m, out), more) == Removed(m, out + more)
  {
  }

  /** Whoever was removed for ending at offset `k` does not matter once the rest of the slot goes. */
  lemma ExceptRemoved(left: map<int, int>, out: seq<int>, k: int)
    requires forall id | id in out :: id in left && left[id] == k
    ensures Except(Removed(left, out), k) == Except(left, k)
  {
    forall id
      ensures id in Except(Removed(left, out), k) <==> id in Except(left, k)
    {
      assert id in out ==> left[id] == k;
    }
  }

  lemma AfterStep(left: map<int, int>, k: int)
    ensures Except(After(left, k - 1), k) == After(left, k)
  {
    assert forall id :: id in Except(After(left, k - 1), k) <==> id in After(left, k);
  }

  lemma AfterNone(left: map<int, int>)
    requires forall id | id in left :: left[id] >= 1
    ensures After(left, 0) == left
  {
    assert forall id :: id in After(left, 0) <==> id in left;
  }

  /** A finished sweep, in terms of the seconds that passed instead of the slots it visited. */
  lemma SweepDone(out: seq<int>, left: map<int, int>, known: set<int>, curr: int, h: nat, diff: int)
    requires 0 < h && 0 < diff && forall id | id in left :: 1 <= left[id] <= h
    requires LoggedOut(out, left, known, SweepLength(curr, 3 * h, diff))
    ensures LoggedOut(out, left, known, diff)
    ensures Later(After(left, SweepLength(curr, 3 * h, diff)), SweepLength(curr, 3 * h, diff)) == Running(left, diff)
  {
    var len := SweepLength(curr, 3 * h, diff);
    forall id | id in left
      ensures left[id] <= len <==> left[id] <= diff
    {
      SweepReaches(curr, h, diff, left[id]);
    }
    LaterIsRunning(left, h, len, diff);
  }

  lemma LaterIsRunning(left: map<int, int>, h: nat, len: int, diff: int)
    requires forall id | id in left :: left[id] <= len <==> left[id] <= diff
    requires len == diff || forall id | id in left :: left[id] <= len
    ensures Later(After(left, len), len) == Running(left, diff)
  {
    var m := After(left, len);
    assert forall id :: id in m <==> id in Running(left, diff);
    assert Later(m, len).Keys == m.Keys == Running(left, diff).Keys;
    assert forall id | id in m :: Later(m, len)[id] == Running(left, diff)[id];
  }
}
