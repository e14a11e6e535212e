/** What the timeout wheel does, without lists and slots: a clock and the seconds each player has left. */
module TimerRuns {
  import opened Rings

  /** A request from the connection handlers, queued until the next round. */
  datatype Op = InsertOp(playerId: int) | RemoveOp(playerId: int)

  datatype Clock = Clock(last: int, left: map<int, int>)

  /** One round: the requests taken from the queue and the time of day. */
  datatype Round = Round(ops: seq<Op>, now: int)

  ghost function Apply(left: map<int, int>, h: nat, op: Op): map<int, int> {
    match op
    case InsertOp(id) => left[id := h]
    case RemoveOp(id) => left - {id}
  }

  ghost function ApplyAll(left: map<int, int>, h: nat, ops: seq<Op>): map<int, int>
    decreases |ops|
  {
    if ops == [] then left else ApplyAll(Apply(left, h, ops[0]), h, ops[1..])
  }

  /** The seconds a round finds to have passed: none if it only sets the clock or the clock did not move on. */
  ghost function Elapsed(last: int, now: int): nat {
    if last == 0 || now <= last then 0 else now - last
  }

  ghost function Tick(s: Clock, h: nat, r: Round): Clock {
    var left := ApplyAll(s.left, h, r.ops);
    var last := if s.last == 0 then r.now else s.last;
    if last < r.now then Clock(r.now, Running(left, r.now - last)) else Clock(last, left)
  }

  ghost function Run(s: Clock, h: nat, rounds: seq<Round>): Clock
    decreases |rounds|
  {
    if rounds == [] then s else Run(Tick(s, h, rounds[0]), h, rounds[1..])
  }

  /** No request in the rounds is about the player. */
  ghost predicate Silent(rounds: seq<Round>, id: int) {
    forall r, i | 0 <= r < |rounds| && 0 <= i < |rounds[r].ops| :: rounds[r].ops[i].playerId != id
  }

  lemma {:induction false} ApplySilent(left: map<int, int>, h: nat, ops: seq<Op>, id: int)
    requires forall i | 0 <= i < |ops| :: ops[i].playerId != id
    ensures id in ApplyAll(left, h, ops) <==> id in left
    ensures id in left ==> ApplyAll(left, h, ops)[id] == left[id]
    decreases |ops|
  {
    if ops != [] {
      ApplySilent(Apply(left, h, ops[0]), h, ops[1..], id);
    }
  }

  /** Of several requests about a player the last one counts. */
  lemma {:induction false} LastRequestCounts(left: map<int, int>, h: nat, ops: seq<Op>, i: nat)
    requires i < |ops| && forall j | i < j < |ops| :: ops[j].playerId != ops[i].playerId
    ensures var id, after := ops[i].playerId, ApplyAll(left, h, ops);
      && (id in after <==> ops[i].InsertOp?)
      && (id in after ==> after[id] == h)
    decreases |ops|
  {
    if i == 0 {
      ApplySilent(Apply(left, h, ops[0]), h, ops[1..], ops[0].playerId);
    } else {
      LastRequestCounts(Apply(left, h, ops[0]), h, ops[1..], i - 1);
    }
  }

  /** The players each round of a run logs out, given whose ids resolve in it. */
  ghost predicate Outs(s: Clock, h: nat, rounds: seq<Round>, known: seq<set<int>>, outs: seq<seq<int>>)
    decreases |rounds|
  {
    && |rounds| == |known| == |outs|
    && (rounds != [] ==>
      && LoggedOut(outs[0], ApplyAll(s.left, h, rounds[0].ops), known[0], Elapsed(s.last, rounds[0].now))
      && Outs(Tick(s, h, rounds[0]), h, rounds[1..], known[1..], outs[1..]))
  }

  /** No request in the rounds starts the player's timer. */
  ghost predicate NotInserted(rounds: seq<Round>, id: int) {
    forall r, i | 0 <= r < |rounds| && 0 <= i < |rounds[r].ops| :: rounds[r].ops[i] != InsertOp(id)
  }

  lemma {:induction false} ApplyNoInsert(left: map<int, int>, h: nat, ops: seq<Op>, id: int)
    requires id !in left && forall i | 0 <= i < |ops| :: ops[i] != InsertOp(id)
    ensures id !in ApplyAll(left, h, ops)
    decreases |ops|
  {
    if ops != [] {
      ApplyNoInsert(Apply(left, h, ops[0]), h, ops[1..], id);
    }
  }

  /** A player without a timer is logged out by no round until somebody starts one. */
  lemma {:induction false} NeverOut(s: Clock, h: nat, rounds: seq<Round>, known: seq<set<int>>, outs: seq<seq<int>>, id: int)
    requires id !in s.left && NotInserted(rounds, id) && Outs(s, h, rounds, known, outs)
    ensures id !in Run(s, h, rounds).left
    ensures forall r | 0 <= r < |outs| :: id !in outs[r]
    decreases |rounds|
  {
    if rounds != [] {
      ApplyNoInsert(s.left, h, rounds[0].ops, id);
      assert NotInserted(rounds[1..], id) by {
        assert forall i | 0 <= i < |rounds[1..]| :: rounds[1..][i] == rounds[i + 1];
      }
      NeverOut(Tick(s, h, rounds[0]), h, rounds[1..], known[1..], outs[1..], id);
    }
  }

  /** After a removal that is the last request of its round, no round logs the player out until somebody starts a timer. */
  lemma RemovedStaysOut(s: Clock, h: nat, rounds: seq<Round>, known: seq<set<int>>, outs: seq<seq<int>>, i: nat)
    requires rounds != [] && i < |rounds[0].ops| && rounds[0].ops[i].RemoveOp? && Outs(s, h, rounds, known, outs)
    requires var id := rounds[0].ops[i].playerId;
      && (forall j | i < j < |rounds[0].ops| :: rounds[0].ops[j].playerId != id) && NotInserted(rounds[1..], id)
    ensures rounds[0].ops[i].playerId !in Run(s, h, rounds).left
    ensures forall r | 0 <= r < |outs| :: rounds[0].ops[i].playerId !in outs[r]
  {
    LastRequestCounts(s.left, h, rounds[0].ops, i);
    NeverOut(Tick(s, h, rounds[0]), h, rounds[1..], known[1..], outs[1..], rounds[0].ops[i].playerId);
  }

  /** A player nobody asks about is logged out by the round that finds the deadline reached, and by no round before. */
  lemma OutWhenDue(s: Clock, h: nat, r: Round, known: set<int>, out: seq<int>, id: int)
    requires s.last > 0 && id in s.left && s.left[id] > 0 && Silent([r], id)
    requires LoggedOut(out, ApplyAll(s.left, h, r.ops), known, Elapsed(s.last, r.now))
    ensures id in out <==> id in known && s.last + s.left[id] <= r.now
  {
    assert [r][0] == r;
    ApplySilent(s.left, h, r.ops, id);
  }

  lemma {:induction false} ApplyPositive(left: map<int, int>, h: nat, ops: seq<Op>)
    requires 0 < h && forall id | id in left :: 0 < left[id]
    ensures forall id | id in ApplyAll(left, h, ops) :: 0 < ApplyAll(left, h, ops)[id]
    decreases |ops|
  {
    if ops != [] {
      ApplyPositive(Apply(left, h, ops[0]), h, ops[1..]);
    }
  }

  /** The first round only sets the clock: nobody is logged out, whatever the time of day. */
  lemma FirstRoundWaits(s: Clock, h: nat, r: Round, known: set<int>, out: seq<int>)
    requires s.last == 0 && 0 < h && forall id | id in s.left :: 0 < s.left[id]
    requires LoggedOut(out, ApplyAll(s.left, h, r.ops), known, Elapsed(s.last, r.now))
    ensures (forall id :: id !in out) && Tick(s, h, r) == Clock(r.now, ApplyAll(s.left, h, r.ops))
  {
    ApplyPositive(s.left, h, r.ops);
  }

  /**
   Over any run, with any clock readings, a player nobody asks about stays exactly until the
   clock of the rounds reaches the deadline, and the deadline never moves.
   */
  lemma {:induction false} DeadlineKept(s: Clock, h: nat, rounds: seq<Round>, id: int)
    requires s.last > 0 && id in s.left && s.left[id] > 0 && Silent(rounds, id)
    ensures var e := Run(s, h, rounds);
      && e.last >= s.last
      && (id in e.left <==> e.last < s.last + s.left[id])
      && (id in e.left ==> e.last + e.left[id] == s.last + s.left[id])
    decreases |rounds|
  {
    if rounds != [] {
      var r := rounds[0];
      ApplySilent(s.left, h, r.ops, id);
      var t := Tick(s, h, r);
      assert Silent(rounds[1..], id) by {
        assert forall i | 0 <= i < |rounds[1..]| :: rounds[1..][i] == rounds[i + 1];
      }
      if id in t.left {
        DeadlineKept(t, h, rounds[1..], id);
      } else {
        StaysAway(t, h, rounds[1..], id);
      }
    }
  }

  /** A player without a running timer gets none unless somebody asks. */
  lemma {:induction false} StaysAway(s: Clock, h: nat, rounds: seq<Round>, id: int)
    requires s.last > 0 && id !in s.left && Silent(rounds, id)
    ensures var e := Run(s, h, rounds); e.last >= s.last && id !in e.left
    decreases |rounds|
  {
    if rounds != [] {
      ApplySilent(s.left, h, rounds[0].ops, id);
      assert Silent(rounds[1..], id) by {
        assert forall i | 0 <= i < |rounds[1..]| :: rounds[1..][i] == rounds[i + 1];
      }
      StaysAway(Tick(s, h, rounds[0]), h, rounds[1..], id);
    }
  }

  /**
   A timer started over in a round counts from the round before, so it outlives its own round
   exactly if that one came less than a heartbeat interval ago.
   */
  lemma RestartSurvives(s: Clock, h: nat, ops: seq<Op>, id: int, now: int)
    requires 0 < h && s.last > 0 && forall i | 0 <= i < |ops| :: ops[i].playerId != id
    ensures var r := Round([InsertOp(id)] + ops, now);
      && (id in Tick(s, h, r).left <==> now - s.last < h)
      && (id in Tick(s, h, r).left ==> Tick(s, h, r).last + Tick(s, h, r).left[id] == s.last + h)
  {
    var all := [InsertOp(id)] + ops;
    assert all[1..] == ops;
    ApplySilent(s.left[id := h], h, ops, id);
  }
}
