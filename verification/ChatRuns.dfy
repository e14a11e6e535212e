/** What is in a chat log after any number of messages. */
module ChatRuns {
  import opened Chats

  datatype Push = Push(msg: ChatMsg, now: int, sent: int)

  ghost function Sent(pushes: seq<Push>): (r: seq<Entry>)
    ensures |r| == |pushes| && forall i | 0 <= i < |r| :: r[i] == Entry(pushes[i].msg, pushes[i].sent)
  {
    seq(|pushes|, i requires 0 <= i < |pushes| => Entry(pushes[i].msg, pushes[i].sent))
  }

  ghost function LogAfter(pushes: seq<Push>, exist: int, cap: nat): seq<Entry> {
    if pushes == [] then [] else
      var n := |pushes| - 1;
      Pushed(LogAfter(pushes[..n], exist, cap), exist, cap, pushes[n].now, Entry(pushes[n].msg, pushes[n].sent))
  }

  ghost predicate InOrder(log: seq<Entry>) {
    forall i, j | 0 <= i < j < |log| :: log[i].sendTime <= log[j].sendTime
  }

  /** How many of the oldest entries have existed for `exist` seconds. */
  ghost function Expired(log: seq<Entry>, exist: int, now: int): (k: nat)
    ensures k <= |log|
  {
    if log == [] || now - log[0].sendTime < exist then 0 else 1 + Expired(log[1..], exist, now)
  }

  /** In a log in the order of sending, what expires is at the front. */
  lemma {:induction false} KeptInOrder(log: seq<Entry>, exist: int, now: int)
    requires InOrder(log)
    ensures Kept(log, exist, now) == log[Expired(log, exist, now)..]
  {
    if log != [] {
      KeptInOrder(log[1..], exist, now);
      assert |log| > 1 ==> log[0].sendTime <= log[1].sendTime;
    }
  }

  /** The clock never goes back. */
  ghost predicate Clocked(pushes: seq<Push>) {
    forall i, j | 0 <= i < j < |pushes| :: pushes[i].now <= pushes[j].now && pushes[i].sent <= pushes[j].sent
  }

  /** Whether the log holds message `i` after all pushes: the last always, another if it is recent and among the last. */
  ghost predicate Held(pushes: seq<Push>, exist: int, cap: nat, i: int)
    requires 0 <= i < |pushes|
  {
    var n := |pushes|;
    i == n - 1 || (n - cap <= i && pushes[n - 1].now - pushes[i].sent < exist)
  }

  lemma {:induction false} ExpiredSplits(log: seq<Entry>, exist: int, now: int)
    ensures var e := Expired(log, exist, now);
      && (forall i | 0 <= i < e :: now - log[i].sendTime >= exist)
      && (e < |log| ==> now - log[e].sendTime < exist)
  {
    if log != [] && now - log[0].sendTime >= exist {
      ExpiredSplits(log[1..], exist, now);
    }
  }

  /** How the start of the log moves: past what has expired, and one further if the log is still full. */
  lemma StartMoves(pushes: seq<Push>, exist: int, cap: nat, m: nat, i: nat)
    requires Clocked(pushes) && pushes != [] && 1 <= cap
    requires m <= |pushes| - 1 && (m == |pushes| - 1 ==> m == 0) && i < |pushes|
    requires var p := pushes[..|pushes| - 1]; forall j | 0 <= j < |p| :: m <= j <==> Held(p, exist, cap, j)
    ensures var n := |pushes| - 1;
      var e := Expired(Sent(pushes[..n])[m..], exist, pushes[n].now);
      (if n - (m + e) >= cap then m + e + 1 else m + e) <= i <==> Held(pushes, exist, cap, i)
  {
    var n := |pushes| - 1;
    var p, now := pushes[..n], pushes[n].now;
    var log := Sent(p)[m..];
    var e := Expired(log, exist, now);
    ExpiredSplits(log, exist, now);
    hide Sent;
    assert m < n ==> Held(p, exist, cap, m);
    if i < n {
      assert m <= i <==> Held(p, exist, cap, i);
      assert p[i] == pushes[i];
      if m <= i {
        assert log[i - m].sendTime == pushes[i].sent;
        if m + e <= i {
          assert log[e].sendTime == pushes[m + e].sent <= pushes[i].sent;
        }
      }
    }
  }

  /** The log is the part of everything sent, from some message on, that is held: no more, no less, in order. */
  lemma {:induction false} LogIsTail(pushes: seq<Push>, exist: int, cap: nat) returns (k: nat)
    requires Clocked(pushes) && pushes != [] && 1 <= cap
    ensures k < |pushes| && LogAfter(pushes, exist, cap) == Sent(pushes)[k..]
    ensures forall i | 0 <= i < |pushes| :: k <= i <==> Held(pushes, exist, cap, i)
    decreases |pushes|
  {
    var n := |pushes| - 1;
    var p := pushes[..n];
    hide Sent, Expired;
    var m: nat := 0;
    if p != [] {
      m := LogIsTail(p, exist, cap);
    }
    var log := LogAfter(p, exist, cap);
    assert log == Sent(p)[m..];
    assert InOrder(log);
    KeptInOrder(log, exist, pushes[n].now);
    var e := Expired(log, exist, pushes[n].now);
    k := if n - (m + e) >= cap then m + e + 1 else m + e;
    forall i | 0 <= i < |pushes|
      ensures k <= i <==> Held(pushes, exist, cap, i)
    {
      StartMoves(pushes, exist, cap, m, i);
    }
    SentMore(pushes);
    TailMore(Sent(p), Entry(pushes[n].msg, pushes[n].sent), m, e);
  }

  lemma SentMore(pushes: seq<Push>)
    requires pushes != []
    ensures var n := |pushes| - 1; Sent(pushes) == Sent(pushes[..n]) + [Entry(pushes[n].msg, pushes[n].sent)]
  {
  }

  lemma TailMore(all: seq<Entry>, x: Entry, m: nat, e: nat)
    requires m + e <= |all|
    ensures all[m..][e..] + [x] == (all + [x])[m + e..]
    ensures m + e < |all| ==> all[m..][e..][1..] + [x] == (all + [x])[m + e + 1..]
  {
  }

  /** A log never holds more messages than the pool has items, and is in the order of sending. */
  lemma LogFits(pushes: seq<Push>, exist: int, cap: nat)
    requires Clocked(pushes) && 1 <= cap
    ensures |LogAfter(pushes, exist, cap)| <= cap && InOrder(LogAfter(pushes, exist, cap))
  {
    if pushes != [] {
      var k := LogIsTail(pushes, exist, cap);
      assert Held(pushes, exist, cap, k);
    }
  }

  /** While the clock does not go back and there are two items at least, every push finds a log that fits. */
  lemma RunsFit(pushes: seq<Push>, exist: int, cap: nat)
    requires Clocked(pushes) && pushes != [] && 2 <= cap
    ensures var n := |pushes| - 1; Fits(LogAfter(pushes[..n], exist, cap), exist, cap, pushes[n].now)
  {
    var n := |pushes| - 1;
    var log, now := LogAfter(pushes[..n], exist, cap), pushes[n].now;
    LogFits(pushes[..n], exist, cap);
    if LastExpired(log, exist, now) {
      KeptInOrder(log, exist, now);
      ExpiredSplits(log, exist, now);
    }
  }
}
